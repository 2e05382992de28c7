/** C strings and optional pointers, as the rest of the model sees them. */
module CStrings {

  /** A pointer that may be NULL. */
  datatype Option<+T> = None | Some(value: T) {
    function GetOr(default: T): T {
      match this
      case Some(v) => v
      case None => default
    }
  }

  const NUL: char := '\0'
  const LINE_ENDS: set<char> := {'\r', '\n'}

  /** What a NUL-terminated `char *` can hold. */
  type CString = s: string | '\0' !in s

  /** The first position of a character of `stop` in `s`, or |s|: `strlen` for {NUL}, `strpbrk` otherwise. */
  function IndexOf(s: string, stop: set<char>): (i: nat)
    ensures i <= |s|
    ensures i < |s| ==> s[i] in stop
    ensures forall j :: 0 <= j < i ==> s[j] !in stop
  {
    IndexFrom(s, stop, 0)
  }

  function IndexFrom(s: string, stop: set<char>, i: nat): (k: nat)
    requires i <= |s|
    ensures i <= k <= |s|
    ensures k < |s| ==> s[k] in stop
    ensures forall j :: i <= j < k ==> s[j] !in stop
    decreases |s| - i
  {
    if i == |s| || s[i] in stop then i else IndexFrom(s, stop, i + 1)
  }

  /** What `strdup` copies from memory `s`: everything before the first NUL. */
  function Until(s: string): (t: CString)
    ensures t <= s
    ensures |t| < |s| ==> s[|t|] == NUL
  {
    s[..IndexOf(s, {NUL})]
  }

  /** The first stop character settles IndexOf, whatever follows it. */
  lemma IndexOfIs(s: string, stop: set<char>, i: nat)
    requires i <= |s|
    requires i < |s| ==> s[i] in stop
    requires forall j :: 0 <= j < i ==> s[j] !in stop
    ensures IndexOf(s, stop) == i
  {
  }

  /** A piece under construction counts only when it is not empty. */
  function Flush(word: string): seq<string> {
    if word == "" then [] else [word]
  }

  /** The non-empty pieces of `s` between separators, `word` being the beginning of the first. */
  function Split(s: string, sep: char, word: string): (pieces: seq<string>)
    ensures word != "" ==> pieces != []
  {
    if s == "" then Flush(word)
    else if s[0] == sep then Flush(word) + Split(s[1..], sep, "")
    else Split(s[1..], sep, word + [s[0]])
  }
}
