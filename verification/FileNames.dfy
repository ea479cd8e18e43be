/** File name validation, shared by the backends and the checker. A character is one byte. */
module FileNames {
  const NAME_MAX: nat := 255

  datatype Verdict = Valid | DotDot | BadLen | BadChar(pos: nat)

  /** What a file name may be. */
  predicate ValidName(s: string)
  {
    0 < |s| <= NAME_MAX && s != "." && s != ".." && '/' !in s
  }

  /** `memchr` for a slash. */
  function FirstSlash(s: string): (pos: nat)
    ensures pos <= |s|
    ensures forall i :: 0 <= i < pos ==> s[i] != '/'
    ensures pos < |s| ==> s[pos] == '/'
  {
    if s == [] || s[0] == '/' then 0 else 1 + FirstSlash(s[1..])
  }

  /** `validate_filename`: the length first, then the two special names, then the characters. */
  function ValidateFilename(s: string): (v: Verdict)
    ensures v == Valid <==> ValidName(s)
    ensures v.BadChar? ==> v.pos < |s| <= NAME_MAX && s[v.pos] == '/' && '/' !in s[..v.pos]
    ensures v == BadLen <==> |s| == 0 || |s| > NAME_MAX
    ensures v == DotDot <==> s == "." || s == ".."
  {
    if |s| == 2 && s[1] == '.' && s[0] == '.' then DotDot
    else if |s| == 1 && s[0] == '.' then DotDot
    else if |s| > NAME_MAX || |s| == 0 then BadLen
    else
      var pos := FirstSlash(s);
      if pos < |s| then BadChar(pos) else Valid
  }
}
