/**
 Choice of the training key (`GetTrainingKey`).

 The configured key is used as is unless it is blank or still the placeholder
 text. Otherwise the first command-line argument, when there is one, is tried,
 and then lines are read from the console until one is a usable key: not
 blank and exactly 32 UTF-16 code units long. The console is a finite
 sequence of lines; once it is used up, the console read returns null for
 ever, which `GetTrainingKey` treats as blank, so its loop never ends. The model
 reports that case as `InputExhausted` instead of running forever.
 */
module TrainingKey {

  /** The placeholder text `GetTrainingKey` treats as no key configured. */
  const Placeholder: string := "<your key here>"

  /** The length, in UTF-16 code units, that a usable key must have. */
  const KeyLength: nat := 32

  /** The characters .NET classifies as white space: the Unicode space,
      line and paragraph separators, plus U+0009 to U+000D and U+0085. */
  predicate IsWhiteSpace(c: char) {
    || '\t' <= c <= '\r'
    || c == ' '
    || c == '\U{0085}'
    || c == '\U{00A0}'
    || c == '\U{1680}'
    || '\U{2000}' <= c <= '\U{200A}'
    || c == '\U{2028}'
    || c == '\U{2029}'
    || c == '\U{202F}'
    || c == '\U{205F}'
    || c == '\U{3000}'
  }

  /** Empty or made only of white space. A null string is not representable
      here; the one place the program can meet one (the end of console input)
      is modelled separately. */
  predicate IsBlank(s: string) {
    forall i :: 0 <= i < |s| ==> IsWhiteSpace(s[i])
  }

  /** The length of `s` as .NET counts it: one code unit per character of the
      Basic Multilingual Plane, two (a surrogate pair) for any other. */
  function Utf16Length(s: string): (n: nat)
    ensures |s| <= n <= 2 * |s|
    ensures (forall i :: 0 <= i < |s| ==> s[i] <= '\U{FFFF}') ==> n == |s|
  {
    if s == [] then 0
    else Utf16Length(s[..|s| - 1]) + (if s[|s| - 1] <= '\U{FFFF}' then 1 else 2)
  }

  /** The configured key has not been filled in. */
  predicate NeedsPrompt(configured: string) {
    IsBlank(configured) || configured == Placeholder
  }

  /** A key the prompting loop accepts. */
  predicate IsUsableKey(key: string) {
    !IsBlank(key) && Utf16Length(key) == KeyLength
  }

  /** The result of the key selection: the key and the number of console lines
      read to obtain it, or the report that the console ran out before a
      usable key was typed. */
  datatype KeyChoice = Chosen(key: string, linesRead: nat) | InputExhausted

  /** `GetTrainingKey`: `configured` is the key compiled into the program,
      `args` the command line and `input` the lines the console would return. */
  method GetTrainingKey(configured: string, args: seq<string>, input: seq<string>)
    returns (r: KeyChoice)
    ensures !NeedsPrompt(configured) ==> r == Chosen(configured, 0)
    ensures NeedsPrompt(configured) && r.Chosen? ==> IsUsableKey(r.key)
    ensures (NeedsPrompt(configured) && |args| >= 1 && IsUsableKey(args[0])) ==> r == Chosen(args[0], 0)
    ensures NeedsPrompt(configured) && r.Chosen? && r.linesRead == 0 ==>
              |args| >= 1 && r.key == args[0]
    ensures NeedsPrompt(configured) && r.Chosen? && r.linesRead > 0 ==>
              && !(|args| >= 1 && IsUsableKey(args[0]))
              && r.linesRead <= |input|
              && r.key == input[r.linesRead - 1]
              && (forall j :: 0 <= j < r.linesRead - 1 ==> !IsUsableKey(input[j]))
    ensures r.InputExhausted? <==>
              && NeedsPrompt(configured)
              && !(|args| >= 1 && IsUsableKey(args[0]))
              && (forall j :: 0 <= j < |input| ==> !IsUsableKey(input[j]))
  {
    if !NeedsPrompt(configured) {
      return Chosen(configured, 0);
    }
    PlaceholderIsNotUsable();
    var key := configured;
    if |args| >= 1 {
      key := args[0];
    }
    ghost var first := key;
    var read := 0;
    while IsBlank(key) || Utf16Length(key) != KeyLength
      invariant read <= |input|
      invariant read == 0 ==> key == first
      invariant read > 0 ==> !IsUsableKey(first)
      invariant read > 0 ==> key == input[read - 1]
      invariant forall j :: 0 <= j < read - 1 ==> !IsUsableKey(input[j])
      decreases |input| - read
    {
      if read == |input| {
        return InputExhausted;
      }
      key := input[read];
      read := read + 1;
    }
    return Chosen(key, read);
  }

  /** The placeholder is 15 characters long, so it is never a usable key. */
  lemma PlaceholderIsNotUsable()
    ensures !IsUsableKey(Placeholder)
    ensures Utf16Length(Placeholder) == 15
  {
    assert forall i :: 0 <= i < |Placeholder| ==> Placeholder[i] <= '\U{FFFF}';
  }

  /** A key obtained by prompting is stable: configured as the key on a later
      run, it is returned at once without reading anything. */
  lemma ChosenKeyNeedsNoPrompt(key: string)
    requires IsUsableKey(key)
    ensures !NeedsPrompt(key)
  {
    PlaceholderIsNotUsable();
  }

  /** The default the program ships with, `{key}`, is neither blank nor the
      placeholder, so it is used as the key even though it is only five
      characters long and would never pass the prompting loop's check. */
  lemma ShippedDefaultSkipsPrompt()
    ensures !NeedsPrompt("{key}")
    ensures !IsUsableKey("{key}")
  {
    assert !IsWhiteSpace("{key}"[0]);
    assert forall i :: 0 <= i < |"{key}"| ==> "{key}"[i] <= '\U{FFFF}';
  }
}
