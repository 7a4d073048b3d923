/** `sanitize_filename` of processors/md2audio.py: the section title is made
    safe for use in a temporary audio file name. */
module Filename {
  import opened Text

  /** A character of the class `["\'\s\\/:*?"<>|]`: quotes, whitespace, and the
      characters file systems reserve. */
  predicate Unsafe(c: char)
  {
    || c == '"' || c == '\'' || c == '\\' || c == '/' || c == ':'
    || c == '*' || c == '?' || c == '<' || c == '>' || c == '|'
    || IsSpace(c)
  }

  /** `re.sub(r'["\'\s\\/:*?"<>|]', '_', name)`, one character at a time. */
  function Sanitize(name: string): (r: string)
    ensures |r| == |name|
    ensures forall i | 0 <= i < |name| :: r[i] == (if Unsafe(name[i]) then '_' else name[i])
  {
    if name == [] then [] else [if Unsafe(name[0]) then '_' else name[0]] + Sanitize(name[1..])
  }

  /** Nothing unsafe is left, and nothing safe was touched. */
  lemma SanitizeIsSafe(name: string)
    ensures forall i | 0 <= i < |Sanitize(name)| :: !Unsafe(Sanitize(name)[i])
    ensures forall i | 0 <= i < |name| :: !Unsafe(name[i]) ==> Sanitize(name)[i] == name[i]
  {
  }

  /** Sanitising an already sanitised name changes nothing. */
  lemma SanitizeIdempotent(name: string)
    ensures Sanitize(Sanitize(name)) == Sanitize(name)
  {
    var r := Sanitize(name);
    assert forall i | 0 <= i < |r| :: !Unsafe(r[i]);
  }

  /** A name with no unsafe character is its own sanitised form. */
  lemma SanitizeKeepsSafeName(name: string)
    requires forall i | 0 <= i < |name| :: !Unsafe(name[i])
    ensures Sanitize(name) == name
  {
  }
}
