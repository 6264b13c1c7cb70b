# BulkUploader: the upload loop and the training-key choice

BulkUploader is a console program that reads a folder of images, uploads each
one, tagged, to a Custom Vision training project, and then starts and polls a
training run. Nearly all of it is calls to the remote training service. This
project models the two pieces of local decision logic in
`BulkUploader/Program.cs` and proves what they do:

- `Upload` (`upload.dfy`) models `UploadImages`. It walks the in-memory image
  list with a zero-based `count`. It attempts only images whose position is a
  multiple of the stride `skip`. It stops once `count` reaches `max * skip`.
  It counts in `uploadCounter` only the uploads that return normally. The
  remote call is replaced by one `Outcome` per image (`Ok` or `Fail`, in list
  order). The method also returns `attempts`: the positions handed to the
  remote call, in call order.
- `TrainingKey` (`training_key.dfy`) models `GetTrainingKey`. It keeps the
  configured key unless that key is blank or the placeholder text
  (`NeedsPrompt`, the test at Program.cs:182). Blank is
  `string.IsNullOrWhiteSpace` on a non-null string (`IsBlank`, over the
  .NET white-space characters in `IsWhiteSpace`). Otherwise it tries the
  first command-line argument, then reads console lines until one is
  non-blank and exactly 32 UTF-16 code units long (`IsUsableKey`, the loop
  condition at Program.cs:189 negated). Console input is a finite sequence
  of lines.

Two behaviours of the code are easy to miss:

- The cap is tested after `count` is incremented. So a `max * skip` below 1
  never stops the loop, and every image is considered.
- A configured key that is filled in is never validated. The shipped default
  `{key}` is used as the key although it is 5 characters long. A command-line
  key is then ignored.

## Model

| member | source | states |
|---|---|---|
| `Upload.UploadImages` | BulkUploader/Program.cs:137-178 | The number of images considered is `min(|images|, max*skip)` when `max*skip >= 1`, and all of them otherwise. An index is attempted if and only if it is below that count and a multiple of `skip`. Attempts are made once each, in list order, and only on existing images. The tally is the number of attempted images whose upload returns normally, so a failed upload adds nothing and does not stop the loop. The tally never exceeds the number of attempts, and with `max >= 1` at most `max` uploads are attempted and at most `max` counted. The trace is exactly the stride selection `StrideIndices(count, skip)`, so every fact proved about the stride applies to this method's result. |
| `Upload.StrideIndices` | BulkUploader/Program.cs:146-148 | The positions picked by the `count % skip == 0` test, in the order the loop reaches them. Among the first `k` positions there are at most `k` of them. |
| `Upload.OkCount` | BulkUploader/Program.cs:150-160 | What `uploadCounter` means: the number of attempted positions whose upload returns normally. It never exceeds the number of attempts. |
| `Upload.SuccessesBelow` | BulkUploader/Program.cs:146-163 | The running tally as the loop keeps it, position by position: among the first `k` images, those the stride selects and whose upload succeeds. There are at most `k` of them. |
| `Upload.ScanImages` | BulkUploader/Program.cs:143-175 | The loop stops at the end of the list or right after the image that brings `count` to a cap of at least 1, whichever comes first. The attempt trace is the stride selection below the final `count`. The tally is the number of selected positions whose upload succeeds. |
| `Upload.StrideIndicesExact` | BulkUploader/Program.cs:146-148 | The decimation policy: among the first `k` positions, exactly the multiples of `skip` are selected, each once, in increasing order. |
| `Upload.StrideStep` | BulkUploader/Program.cs:146-148 | Looking at position `k` appends `k` to the attempt trace when `k % skip == 0` and leaves the trace unchanged otherwise. |
| `Upload.SuccessesAreOkAttempts` | BulkUploader/Program.cs:146-163 | The tally counted position by position, as the loop counts it, equals the number of entries of the attempt trace whose upload succeeds. |
| `Upload.OkAttemptsStep` | BulkUploader/Program.cs:148-160 | Looking at one more image raises the tally over the trace by one exactly when the image is selected and its upload succeeds. |
| `Upload.OkCountAppend` | BulkUploader/Program.cs:153-154 | One more attempt raises the tally by one exactly when that image's upload returns normally. A caught failure leaves it unchanged. |
| `Upload.StrideCount` | BulkUploader/Program.cs:143-168 | Among the first `k` positions the stride selects `k / skip` rounded up. |
| `Upload.AttemptsAtMostMax` | BulkUploader/Program.cs:143-168 | The cap counts images considered, not uploads. Even so, it bounds the attempts by `max` whenever `max >= 1`. |
| `Upload.UnitStrideAttemptsAll` | BulkUploader/Program.cs:145-153 | With the hard-coded stride 1, the attempts below `k` are exactly `0, 1, …, k-1`: every image up to the cap, once, in list order. |
| `Upload.AllOkCountsEveryAttempt` | BulkUploader/Program.cs:150-154 | When every upload returns normally, the tally equals the number of attempts. |
| `Upload.FailureExcludedFromTally` | BulkUploader/Program.cs:150-160 | Turning image `i`'s outcome into a failure lowers the tally by one if `i` was attempted and would have succeeded. Otherwise it changes nothing. |
| `Upload.StrideTwoFirstFails` | BulkUploader/Program.cs:137-178 | Running the upload loop on four images with `max = 10` and `skip = 2`, the first upload failing: all four images are considered, positions 0 and 2 are attempted, and one upload is counted. |
| `TrainingKey.GetTrainingKey` | BulkUploader/Program.cs:180-198 | A configured key that is neither blank nor the placeholder is returned unchanged, with no input read. Otherwise the first argument, if present, is returned unchanged when it is usable. Failing that, the result is the first usable console line, with every earlier line unusable. Whenever prompting happens, the returned key is non-blank and 32 code units long. The console runs out without a key exactly when no candidate was usable. |
| `TrainingKey.IsWhiteSpace` | BulkUploader/Program.cs:182 | The characters .NET's `char.IsWhiteSpace` accepts: U+0009 to U+000D, U+0020, U+0085, U+00A0, U+1680, U+2000 to U+200A, U+2028, U+2029, U+202F, U+205F and U+3000. |
| `TrainingKey.IsBlank` | BulkUploader/Program.cs:182 | `string.IsNullOrWhiteSpace` on a non-null string: every character is white space, which includes the empty string. |
| `TrainingKey.NeedsPrompt` | BulkUploader/Program.cs:182 | The configured key must be replaced when it is blank or equal to `<your key here>`. |
| `TrainingKey.IsUsableKey` | BulkUploader/Program.cs:189 | The prompting loop stops on a key that is not blank and is 32 UTF-16 code units long. This is the loop condition negated. |
| `TrainingKey.Utf16Length` | BulkUploader/Program.cs:189 | The length the key check uses lies between the number of characters and twice that, and equals it when no character is outside the Basic Multilingual Plane. |
| `TrainingKey.PlaceholderIsNotUsable` | BulkUploader/Program.cs:182-189 | The placeholder `<your key here>` is 15 code units long and so never passes the prompting loop's test. |
| `TrainingKey.ChosenKeyNeedsNoPrompt` | BulkUploader/Program.cs:182-193 | A key the prompting loop accepts does not itself need prompting: configured on a later run, it is used as is. |
| `TrainingKey.ShippedDefaultSkipsPrompt` | BulkUploader/Program.cs:52 | The shipped default `{key}` skips prompting, although the prompting loop would reject it. |

## Left out

- The remote training service (`CreateProject`, `CreateTag`, `CreateImagesFromData`, `TrainProject`, `GetIteration`, `UpdateIteration`): foreign remote calls. `CreateImagesFromData` appears only as the per-image `Ok`/`Fail` outcome. The kind of exception caught is not modelled, since every kind is handled the same way.
- The training poll loop with its one-second sleep (`Main`): an unbounded wait on remote state with no local decisions.
- `Main` itself: it calls the key choice once and the upload loop twice with the same folder and different tags. It also catches a failed `TrainProject` and then skips polling and `UpdateIteration` (Program.cs:86-95); that branch depends only on the remote result.
- `LoadImagesFromDisk`: filesystem I/O. Its result is an arbitrary sequence, so enumeration order is whatever the sequence says.
- Console output, the progress dots, and the final `Console.ReadKey`: output only.
- Upload.UploadImages: C# 32-bit overflow of `max * skip` and of the counters is not modelled. Integers are unbounded; the hard-coded `max = 100` and `skip = 1` cannot overflow.
- Upload.UploadImages: requires `skip >= 1`. A zero stride would throw a division-by-zero exception at the first `count % skip`, and a negative one is never used. The stride is a hard-coded 1.
- TrainingKey.GetTrainingKey: when console input ends, `ReadLine` returns null for ever and the program's loop never terminates. The model returns `InputExhausted` instead of diverging.
- A null configured key or argument cannot occur (both are non-null strings in the program), so null is not modelled for them.
