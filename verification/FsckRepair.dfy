/**
The non-interactive repair of entry names: the backend reports what is wrong with a name, the
handler changes it and applies it, until the backend takes it. A character is one byte.
*/
module FsckRepair {
  import opened Basics
  import opened FileNames

  const NUL: char := '\0'
  const NAME_SIZE: nat := NAME_MAX + 1
  const TWO_32: nat := 0x1_0000_0000

  // ---- decimal numbers --------------------------------------------------

  function Digit(d: nat): (c: char)
    requires d < 10
  {
    ['0', '1', '2', '3', '4', '5', '6', '7', '8', '9'][d]
  }

  function Decimal(n: nat): (s: string)
  {
    if n < 10 then [Digit(n)] else Decimal(n / 10) + [Digit(n % 10)]
  }

  predicate IsDigits(s: string)
  {
    forall i :: 0 <= i < |s| ==> '0' <= s[i] <= '9'
  }

  lemma {:induction false} DecimalDigits(n: nat)
    ensures |Decimal(n)| > 0 && IsDigits(Decimal(n))
  {
    if n >= 10 {
      DecimalDigits(n / 10);
    }
  }

  lemma DigitInjective(d: nat, e: nat)
    requires d < 10 && e < 10 && Digit(d) == Digit(e)
    ensures d == e
  {
  }

  lemma {:induction false} DecimalInjective(m: nat, n: nat)
    requires Decimal(m) == Decimal(n)
    ensures m == n
  {
    DecimalDigits(m / 10);
    DecimalDigits(n / 10);
    var s, t := Decimal(m), Decimal(n);
    assert s[|s| - 1] == Digit(m % 10) && t[|t| - 1] == Digit(n % 10);
    DigitInjective(m % 10, n % 10);
    if m >= 10 && n >= 10 {
      assert s[..|s| - 1] == Decimal(m / 10) && t[..|t| - 1] == Decimal(n / 10);
      DecimalInjective(m / 10, n / 10);
    }
  }

  /** A decimal number read back. */
  function NumberOf(s: string): (n: int)
  {
    if s == [] then 0 else 10 * NumberOf(s[..|s| - 1]) + (s[|s| - 1] as int - '0' as int)
  }

  /** The digits of a number have its value, and do not start with a zero unless it is 0. */
  lemma {:induction false} DecimalIsNumber(n: nat)
    ensures NumberOf(Decimal(n)) == n && (Decimal(n)[0] == '0' <==> n == 0)
  {
    DecimalDigits(n);
    var s := Decimal(n);
    if n >= 10 {
      DecimalIsNumber(n / 10);
      DecimalDigits(n / 10);
      assert s[..|s| - 1] == Decimal(n / 10);
    } else {
      assert s[..|s| - 1] == [];
    }
  }

  function Power10(k: nat): (p: nat)
    ensures p > 0
  {
    if k == 0 then 1 else 10 * Power10(k - 1)
  }

  lemma {:induction false} DecimalLength(n: nat, k: nat)
    requires k > 0 && n < Power10(k)
    ensures |Decimal(n)| <= k
    decreases k
  {
    if n >= 10 {
      assert k > 1;
      DecimalLength(n / 10, k - 1);
    }
  }

  lemma CounterLength(n: nat)
    requires n < TWO_32
    ensures |Decimal(n)| <= 10
  {
    assert Power10(5) == 100000;
    assert Power10(10) == 10000000000;
    DecimalLength(n, 10);
  }

  lemma IdLength(n: nat)
    requires n < TWO_64
    ensures |Decimal(n)| <= 20
  {
    assert Power10(5) == 100000;
    assert Power10(10) == 10000000000;
    assert Power10(15) == 1000000000000000;
    assert Power10(20) == 100000000000000000000;
    DecimalLength(n, 20);
  }

  // ---- numbered names ---------------------------------------------------

  function Suffix(n: nat): (s: string)
  {
    "_" + Decimal(n)
  }

  ghost predicate Ends(s: string, n: nat)
  {
    |Suffix(n)| <= |s| && s[|s| - |Suffix(n)|..] == Suffix(n)
  }

  /** The underscore of the number is the last one of the name. */
  lemma LastUnderscore(s: string, n: nat)
    requires Ends(s, n)
    ensures var k := |s| - |Decimal(n)|;
            && 0 < k && s[k - 1] == '_' && s[k..] == Decimal(n)
            && forall i :: k <= i < |s| ==> s[i] != '_'
  {
    DecimalDigits(n);
    var k := |s| - |Decimal(n)|;
    assert s[k - 1..][0] == '_' && s[k - 1..][1..] == Decimal(n);
    assert s[k..] == s[k - 1..][1..];
    forall i | k <= i < |s| ensures s[i] != '_' {
      assert s[i] == Decimal(n)[i - k];
    }
  }

  /** A name has at most one number at its end. */
  lemma EndsOnce(s: string, m: nat, n: nat)
    requires Ends(s, m) && Ends(s, n)
    ensures m == n
  {
    LastUnderscore(s, m);
    LastUnderscore(s, n);
    DecimalInjective(m, n);
  }

  /** A text put at the end of a name, at the cost of the name where it does not fit. */
  function Appended(name: string, t: string): (s: string)
    requires |name| <= NAME_SIZE && |t| <= NAME_MAX
    ensures |s| == if |name| + |t| <= NAME_MAX then |name| + |t| else NAME_MAX
    ensures s[..|s| - |t|] <= name && s[|s| - |t|..] == t
  {
    if |name| + |t| <= NAME_MAX then name + t else name[..NAME_MAX - |t|] + t
  }

  /** What `fix_name_dup` makes of a name. */
  function Numbered(name: string, n: nat): (s: string)
    requires |name| <= NAME_SIZE && |Suffix(n)| <= NAME_MAX
    ensures |s| <= NAME_MAX && Ends(s, n)
    ensures |s| == if |name| + |Suffix(n)| <= NAME_MAX then |name| + |Suffix(n)| else NAME_MAX
    ensures s[..|s| - |Suffix(n)|] <= name
  {
    Appended(name, Suffix(n))
  }

  // ---- the name buffer --------------------------------------------------

  ghost predicate NulFree(s: seq<char>)
  {
    forall i :: 0 <= i < |s| ==> s[i] != NUL
  }

  /** `strnlen`. */
  function StrnLen(b: seq<char>): (n: nat)
    ensures n <= |b| && NulFree(b[..n]) && (n < |b| ==> b[n] == NUL)
  {
    if b == [] || b[0] == NUL then 0
    else
      assert forall k :: 0 < k <= |b| ==> b[..k] == [b[0]] + b[1..][..k - 1];
      1 + StrnLen(b[1..])
  }

  /** The string that a buffer holds. */
  function Text(b: seq<char>): (s: string)
    ensures |s| <= |b| && NulFree(s)
  {
    b[..StrnLen(b)]
  }

  lemma TextIs(b: seq<char>, n: nat)
    requires n <= |b| && (n < |b| ==> b[n] == NUL) && NulFree(b[..n])
    ensures StrnLen(b) == n && Text(b) == b[..n]
  {
    var m := StrnLen(b);
    assert forall i :: 0 <= i < n ==> b[i] == b[..n][i];
    assert forall i :: 0 <= i < m ==> b[i] == b[..m][i];
  }

  /** What `snprintf` leaves in the buffer, when it prints `t` at `off`. */
  function Printed(b: seq<char>, off: nat, t: string): (r: seq<char>)
    ensures |r| == |b|
  {
    if off >= |b| then b
    else if off + |t| < |b| then Splice(b, off, t + [NUL])
    else Splice(b, off, t[..|b| - off - 1] + [NUL])
  }

  lemma PrintedText(b: seq<char>, off: nat, t: string)
    requires off + |t| < |b| && NulFree(b[..off]) && NulFree(t)
    ensures Text(Printed(b, off, t)) == b[..off] + t
  {
    var r := Printed(b, off, t);
    assert r[..off + |t|] == b[..off] + t;
    TextIs(r, off + |t|);
  }

  lemma PrintedPrefix(b: seq<char>, off: nat, t: string, k: nat)
    requires k <= off && k <= |b|
    ensures Printed(b, off, t)[..k] == b[..k]
  {
  }

  method Snprintf(buf: array<char>, off: nat, t: string)
    modifies buf
    ensures buf[..] == Printed(old(buf[..]), off, t)
  {
    if off >= buf.Length {
      return;
    }
    var n := if off + |t| < buf.Length then |t| else buf.Length - off - 1;
    assert t[..|t|] == t;
    CopyInto(buf, off, t[..n] + [NUL]);
  }

  // ---- the handler ------------------------------------------------------

  /** What the backend says of a name. */
  datatype Result = End | Duplicate | BadChar(pos: nat) | BadLen(len: nat) | DotDot | Invalid

  function FsckName(id: nat): (s: string)
  {
    "fsck-" + Decimal(id)
  }

  /** The name that is tried next. */
  function Fixed(why: Result, name: string, id: nat, translit: char, counter: nat): (s: string)
    requires |name| <= NAME_SIZE && |Suffix(counter)| <= NAME_MAX
  {
    match why
    case End => name
    case BadChar(pos) => if pos < |name| then name[pos := translit] else name
    case Duplicate => Numbered(name, counter)
    case BadLen(len) => if len == 0 then FsckName(id) else if |name| == NAME_SIZE then name[..NAME_MAX] else name
    case DotDot => FsckName(id)
    case Invalid => FsckName(id)
  }

  lemma SuffixIsPrintable(n: nat)
    requires n < TWO_32
    ensures 0 < |Suffix(n)| <= 11 && NulFree(Suffix(n))
  {
    CounterLength(n);
    DecimalDigits(n);
  }

  /** The name given to an entry whose own name cannot be kept: its id, after a fixed prefix. */
  lemma FsckNameTellsId(id: nat)
    ensures |FsckName(id)| > 5 && FsckName(id)[..5] == ['f', 's', 'c', 'k', '-'] && NumberOf(FsckName(id)[5..]) == id
  {
    DecimalDigits(id);
    DecimalIsNumber(id);
    assert FsckName(id)[5..] == Decimal(id);
  }

  /** A duplicate keeps its name, as far as there is room, and its number can be read off. */
  lemma NumberedKeepsName(name: string, n: nat)
    requires |name| <= NAME_SIZE && |Suffix(n)| <= NAME_MAX
    ensures var s, k := Numbered(name, n), |Numbered(name, n)| - |Suffix(n)|;
            && (|name| + |Suffix(n)| <= NAME_MAX ==> s[..k] == name)
            && s[..k] <= name && s[k] == '_' && NumberOf(s[k + 1..]) == n
  {
    var s, k := Numbered(name, n), |Numbered(name, n)| - |Suffix(n)|;
    DecimalIsNumber(n);
    LastUnderscore(s, n);
    if |name| + |Suffix(n)| <= NAME_MAX {
      assert s[..k] == name[..k];
    }
  }

  /** What each fix does to a name. */
  lemma FixedIsSeen(why: Result, name: string, id: nat, translit: char, counter: nat)
    requires |name| <= NAME_SIZE && |Suffix(counter)| <= NAME_MAX
    ensures var s := Fixed(why, name, id, translit, counter);
            match why
            case End => s == name
            case BadChar(pos) => |s| == |name| && forall i :: 0 <= i < |s| ==> s[i] == if i == pos then translit else name[i]
            case Duplicate => Ends(s, counter) && s[..|s| - |Suffix(counter)|] <= name
            case BadLen(len) =>
              if len == 0 then s[..5] == ['f', 's', 'c', 'k', '-'] && NumberOf(s[5..]) == id
              else s <= name && |s| == if |name| > NAME_MAX then NAME_MAX else |name|
            case _ => s[..5] == ['f', 's', 'c', 'k', '-'] && NumberOf(s[5..]) == id
  {
    FsckNameTellsId(id);
  }

  lemma FsckNameIsPrintable(id: nat)
    requires id < TWO_64
    ensures 5 < |FsckName(id)| <= 25
    ensures forall i :: 0 <= i < |FsckName(id)| ==> FsckName(id)[i] != NUL && FsckName(id)[i] != '/' && FsckName(id)[i] < 128 as char
  {
    IdLength(id);
    DecimalDigits(id);
  }

  class Handler {
    var parentId: nat
    var counter: nat
    const translit: char

    ghost predicate Valid()
      reads this
    {
      counter < TWO_32 && translit != '/' && translit != NUL
    }

    constructor (translit: char)
      requires translit != '/' && translit != NUL
      ensures Valid() && this.translit == translit && counter == 0
    {
      this.translit := translit;
      parentId, counter := TWO_64 - 1, 0;
    }

    /** `fix_name_dup`: prints the number at the end of the name, or as far in as it fits. */
    method FixNameDup(buf: array<char>)
      requires Valid() && buf.Length == NAME_SIZE && |Suffix(counter)| <= NAME_MAX
      modifies this`counter, buf
      ensures Valid()
      ensures Text(buf[..]) == Numbered(old(Text(buf[..])), old(counter))
      ensures counter == (old(counter) + 1) % TWO_32
    {
      SuffixIsPrintable(counter);
      AppendText(buf, Suffix(counter));
      counter := (counter + 1) % TWO_32;
    }

    /** `fix_entry`. */
    method FixEntry(why: Result, id: nat, buf: array<char>)
      requires Valid() && buf.Length == NAME_SIZE && id < TWO_64 && |Suffix(counter)| <= NAME_MAX
      modifies this`counter, buf
      ensures Valid()
      ensures !(why.BadChar? && why.pos >= |old(Text(buf[..]))|) ==>
        Text(buf[..]) == Fixed(why, old(Text(buf[..])), id, translit, old(counter))
      ensures why.BadChar? ==> buf[..] == old(buf[..])[(if why.pos >= NAME_SIZE then NAME_SIZE - 1 else why.pos) := translit]
      ensures counter == if why.Duplicate? then (old(counter) + 1) % TWO_32 else old(counter)
    {
      match why {
        case End =>
        case BadChar(pos) =>
          var at := if pos >= NAME_SIZE then NAME_SIZE - 1 else pos;
          PutChar(buf, at, translit);
        case Duplicate =>
          FixNameDup(buf);
        case BadLen(len) =>
          if len > 0 {
            PutNul(buf);
          } else {
            PrintName(id, buf);
          }
        case DotDot =>
          PrintName(id, buf);
        case Invalid =>
          PrintName(id, buf);
      }
    }

    /** The counter that an entry of `parent` is handled with: each directory starts anew. */
    function CounterFor(parent: nat): (c: nat)
      reads this
    {
      if parent != parentId then 0 else counter
    }

    /** `handle_entry`, when it may write and does not ask. */
    method HandleEntry(why: Result, parent: nat, id: nat, buf: array<char>)
      requires Valid() && buf.Length == NAME_SIZE && id < TWO_64
      requires |Suffix(CounterFor(parent))| <= NAME_MAX
      modifies this, buf
      ensures Valid() && parentId == parent
      ensures !(why.BadChar? && why.pos >= |old(Text(buf[..]))|) ==>
        Text(buf[..]) == Fixed(why, old(Text(buf[..])), id, translit, old(CounterFor(parent)))
      ensures why.BadChar? ==> buf[..] == old(buf[..])[(if why.pos >= NAME_SIZE then NAME_SIZE - 1 else why.pos) := translit]
      ensures counter == if why.Duplicate? then (old(CounterFor(parent)) + 1) % TWO_32 else old(CounterFor(parent))
    {
      if parent != parentId {
        parentId := parent;
        counter := 0;
      }
      FixEntry(why, id, buf);
    }
  }

  method PutChar(buf: array<char>, at: nat, c: char)
    requires at < buf.Length && c != NUL
    modifies buf
    ensures buf[..] == old(buf[..])[at := c]
    ensures var name := old(Text(buf[..])); at < |name| ==> Text(buf[..]) == name[at := c]
  {
    ghost var was, n := buf[..], StrnLen(buf[..]);
    buf[at] := c;
    assert buf[..] == was[at := c];
    if at < n {
      assert was[at := c][..n] == was[..n][at := c];
      TextIs(buf[..], n);
    }
  }

  method PutNul(buf: array<char>)
    requires buf.Length == NAME_SIZE
    modifies buf
    ensures var name := old(Text(buf[..])); Text(buf[..]) == if |name| == NAME_SIZE then name[..NAME_MAX] else name
  {
    ghost var was, n := buf[..], StrnLen(buf[..]);
    buf[NAME_SIZE - 1] := NUL;
    assert buf[..] == was[NAME_SIZE - 1 := NUL];
    ghost var m := if n == NAME_SIZE then NAME_MAX else n;
    assert buf[..][..m] == was[..m] == was[..n][..m];
    TextIs(buf[..], m);
  }

  method PrintName(id: nat, buf: array<char>)
    requires buf.Length == NAME_SIZE && id < TWO_64
    modifies buf
    ensures Text(buf[..]) == FsckName(id)
  {
    FsckNameIsPrintable(id);
    ghost var was := buf[..];
    assert was[..0] + FsckName(id) == FsckName(id);
    Snprintf(buf, 0, FsckName(id));
    PrintedText(was, 0, FsckName(id));
  }

  /** The loop of `fix_name_dup`, which runs once or twice. */
  method AppendText(buf: array<char>, t: string)
    requires buf.Length == NAME_SIZE && 0 < |t| <= NAME_MAX && NulFree(t)
    modifies buf
    ensures Text(buf[..]) == Appended(old(Text(buf[..])), t)
  {
    ghost var name := Text(buf[..]);
    var nameLen := StrnLen(buf[..]);
    assert name[..nameLen] == name;
    while true
      invariant nameLen == |name| || (nameLen == NAME_MAX - |t| && |name| + |t| > NAME_MAX)
      invariant nameLen <= |name| && buf[..nameLen] == name[..nameLen]
      decreases nameLen
    {
      ghost var was := buf[..];
      Snprintf(buf, nameLen, t);
      if nameLen + |t| < NAME_SIZE {
        assert NulFree(name[..nameLen]);
        PrintedText(was, nameLen, t);
        return;
      }
      PrintedPrefix(was, nameLen, t, NAME_SIZE - |t| - 1);
      nameLen := NAME_SIZE - |t| - 1;
    }
  }

  // ---- the backend ------------------------------------------------------

  /** A backend's check of a name in a directory where `used` are taken: form, then use, then encoding. */
  function Check(used: set<string>, utf8: string -> bool, name: string): (r: Result)
    ensures r == End <==> ValidName(name) && name !in used && utf8(name)
    ensures r.BadChar? ==> r.pos < |name| <= NAME_MAX && name[r.pos] == '/'
    ensures r.BadLen? <==> |name| == 0 || |name| > NAME_MAX
    ensures r.BadLen? ==> r.len == |name|
    ensures r == Result.DotDot <==> name == "." || name == ".."
    ensures r == Duplicate <==> ValidName(name) && name in used
    ensures r == Invalid <==> ValidName(name) && name !in used && !utf8(name)
  {
    match ValidateFilename(name)
    case BadChar(pos) => Result.BadChar(pos)
    case BadLen => Result.BadLen(|name|)
    case DotDot => Result.DotDot
    case Valid => if name in used then Duplicate else if !utf8(name) then Invalid else End
  }

  predicate Ascii(s: string)
  {
    forall i :: 0 <= i < |s| ==> s[i] < 128 as char
  }

  // ---- why it ends ------------------------------------------------------

  /** The number that the counter shows after `n` steps. */
  function Shown(n: nat): (c: nat)
    ensures c < TWO_32
  {
    n % TWO_32
  }

  ghost predicate NumberFrom(s: string, c: nat, hi: nat)
  {
    exists n: nat :: c <= n < hi && Ends(s, Shown(n))
  }

  /** The used names that end with a number the counter shows from step `c` on, before step `hi`. */
  ghost function NamesFrom(used: set<string>, c: nat, hi: nat): (r: set<string>)
  {
    set s | s in used && NumberFrom(s, c, hi)
  }

  /** The counter shows no number twice in fewer than 2^32 steps. */
  lemma ShownOnce(m: nat, n: nat)
    requires m < n < m + TWO_32
    ensures Shown(m) != Shown(n)
  {
    assert n - m == TWO_32 * (n / TWO_32 - m / TWO_32) + (Shown(n) - Shown(m));
  }

  lemma {:induction false} SubsetSize<T>(a: set<T>, b: set<T>)
    requires a <= b
    ensures |a| <= |b|
  {
    if x :| x in a {
      SubsetSize(a - {x}, b - {x});
    }
  }

  /** A numbered name that is taken is one of those that the next numbers cannot hit. */
  lemma FewerNames(used: set<string>, name: string, c: nat, hi: nat)
    requires name in used && Ends(name, Shown(c)) && c < hi <= c + TWO_32
    ensures |NamesFrom(used, c + 1, hi)| < |NamesFrom(used, c, hi)|
  {
    assert NumberFrom(name, c, hi);
    if NumberFrom(name, c + 1, hi) {
      var n: nat :| c + 1 <= n < hi && Ends(name, Shown(n));
      ShownOnce(c, n);
      EndsOnce(name, Shown(c), Shown(n));
    }
    SubsetSize(NamesFrom(used, c + 1, hi), NamesFrom(used, c, hi) - {name});
  }

  function Slashes(s: string): (n: nat)
    ensures n <= |s|
  {
    if s == [] then 0 else (if s[0] == '/' then 1 else 0) + Slashes(s[1..])
  }

  lemma {:induction false} SlashesReplaced(s: string, pos: nat, c: char)
    requires pos < |s| && s[pos] == '/' && c != '/'
    ensures Slashes(s[pos := c]) == Slashes(s) - 1
  {
    if pos == 0 {
      assert s[pos := c][1..] == s[1..];
    } else {
      assert s[pos := c][1..] == s[1..][pos - 1 := c];
      SlashesReplaced(s[1..], pos - 1, c);
    }
  }

  lemma {:induction false} NoSlashes(s: string)
    requires '/' !in s
    ensures Slashes(s) == 0
  {
    if s != [] {
      NoSlashes(s[1..]);
    }
  }

  /** Where a repair stands after a fix; numbers are shown from step `hi - 2^32` on. */
  datatype Progress = Progress(isReset: bool, isNumbered: bool, hi: nat)

  /**
  A name that was reset is harmless. A numbered one is well-formed and ends with the last number,
  and as many used names are out of the way as numbers were tried.
  */
  ghost predicate InProgress(used: set<string>, p: Progress, name: string, steps: nat)
  {
    && 0 < |name| <= NAME_MAX
    && (p.isReset ==> Ascii(name) && ValidName(name))
    && (p.isNumbered ==>
          && steps > 0 && ValidName(name) && Ends(name, Shown(steps - 1))
          && steps - 1 + |NamesFrom(used, steps - 1, p.hi)| + TWO_32 <= p.hi + |used| && p.hi <= steps - 1 + TWO_32)
  }

  /** A bound on the fixes that are still needed. */
  ghost function Left(used: set<string>, p: Progress, name: string, steps: nat): (n: nat)
    requires p.isNumbered ==> steps > 0
  {
    (if p.isReset then 0 else |used| + 2)
    + Slashes(name)
    + (if p.isNumbered then |NamesFrom(used, steps - 1, p.hi)| else |used| + 1)
  }

  /** How a fix moves the repair on. */
  function NextProgress(why: Result, p: Progress, steps: nat): (q: Progress)
  {
    match why
    case Duplicate => if p.isNumbered then p else Progress(p.isReset, true, steps + TWO_32)
    case DotDot => Progress(true, false, 0)
    case Invalid => Progress(true, false, 0)
    case BadLen(len) => if len == 0 then Progress(true, false, 0) else p
    case _ => p
  }

  lemma FsckNameIsFine(id: nat)
    requires id < TWO_64
    ensures ValidName(FsckName(id)) && Ascii(FsckName(id))
  {
    FsckNameIsPrintable(id);
  }

  /** A numbered name is well-formed if the name was; it is made of no other characters. */
  lemma NumberedIsFine(name: string, n: nat)
    requires n < TWO_32 && 0 < |name| <= NAME_MAX && '/' !in name && |Suffix(n)| <= NAME_MAX
    ensures ValidName(Numbered(name, n))
    ensures Ascii(name) ==> Ascii(Numbered(name, n))
  {
    SuffixIsPrintable(n);
    DecimalDigits(n);
    var s := Numbered(name, n);
    assert '/' !in Suffix(n) && Ascii(Suffix(n));
    assert |Decimal(n)| >= 1;
    assert forall i :: 0 <= i < |s| ==> s[i] in name || s[i] in Suffix(n);
  }

  /** The backend takes every plain name for text. */
  ghost predicate AsciiIsUtf8(utf8: string -> bool)
  {
    forall s {:trigger utf8(s)} :: Ascii(s) ==> utf8(s)
  }

  lemma BadCharMovesOn(used: set<string>, p: Progress, name: string, steps: nat, pos: nat, translit: char)
    requires InProgress(used, p, name, steps) && pos < |name| && name[pos] == '/' && translit != '/'
    ensures var name' := name[pos := translit];
            InProgress(used, p, name', steps) && Left(used, p, name', steps) < Left(used, p, name, steps)
  {
    SlashesReplaced(name, pos, translit);
  }

  lemma DuplicateMovesOn(used: set<string>, p: Progress, name: string, steps: nat)
    requires InProgress(used, p, name, steps) && ValidName(name) && name in used && |used| < TWO_32
    requires |Suffix(Shown(steps))| <= NAME_MAX
    ensures var name', q := Numbered(name, Shown(steps)), NextProgress(Duplicate, p, steps);
            InProgress(used, q, name', steps + 1) && Left(used, q, name', steps + 1) < Left(used, p, name, steps)
  {
    NumberedIsFine(name, Shown(steps));
    NoSlashes(name);
    NoSlashes(Numbered(name, Shown(steps)));
    if p.isNumbered {
      FewerNames(used, name, steps - 1, p.hi);
    } else {
      SubsetSize(NamesFrom(used, steps, steps + TWO_32), used);
    }
  }

  lemma ResetMovesOn(used: set<string>, p: Progress, name: string, steps: nat, id: nat)
    requires InProgress(used, p, name, steps) && !p.isReset && id < TWO_64
    ensures var q := Progress(true, false, 0);
            InProgress(used, q, FsckName(id), steps) && Left(used, q, FsckName(id), steps) < Left(used, p, name, steps)
  {
    FsckNameIsFine(id);
    NoSlashes(FsckName(id));
  }

  /** Every fix of a name that the backend refused brings the repair closer to its end. */
  lemma FixMovesOn(used: set<string>, utf8: string -> bool, p: Progress, name: string, steps: nat, id: nat, translit: char)
    requires InProgress(used, p, name, steps) && Check(used, utf8, name) != End && AsciiIsUtf8(utf8)
    requires |used| < TWO_32 && id < TWO_64 && |Suffix(Shown(steps))| <= NAME_MAX && translit != '/'
    ensures var why := Check(used, utf8, name);
            var name' := Fixed(why, name, id, translit, Shown(steps));
            var steps', q := if why.Duplicate? then steps + 1 else steps, NextProgress(why, p, steps);
            InProgress(used, q, name', steps') && Left(used, q, name', steps') < Left(used, p, name, steps)
  {
    var why := Check(used, utf8, name);
    match why
    case BadChar(pos) => BadCharMovesOn(used, p, name, steps, pos, translit);
    case Duplicate => DuplicateMovesOn(used, p, name, steps);
    case DotDot => ResetMovesOn(used, p, name, steps, id);
    case Invalid => ResetMovesOn(used, p, name, steps, id);
    case BadLen(len) =>
  }

  const START: Progress := Progress(false, false, 0)

  /** As much of a name as fits the buffer. */
  function Clipped(name: string): (s: string)
    ensures |s| <= NAME_SIZE
  {
    if |name| > NAME_SIZE then name[..NAME_SIZE] else name
  }

  function MaxFixes(used: set<string>): (n: nat)
  {
    2 * |used| + NAME_MAX + 3
  }

  /** The first fix, of a name as the backend found it. */
  lemma FirstFix(used: set<string>, utf8: string -> bool, orig: string, steps: nat, id: nat, translit: char)
    requires Check(used, utf8, orig) != End
    requires id < TWO_64 && |Suffix(Shown(steps))| <= NAME_MAX
    ensures var why := Check(used, utf8, orig);
            var name' := Fixed(why, Clipped(orig), id, translit, Shown(steps));
            var steps', q := if why.Duplicate? then steps + 1 else steps, NextProgress(why, START, steps);
            InProgress(used, q, name', steps') && Left(used, q, name', steps') <= MaxFixes(used)
  {
    var why := Check(used, utf8, orig);
    FsckNameIsFine(id);
    match why
    case Duplicate =>
      NumberedIsFine(orig, Shown(steps));
      SubsetSize(NamesFrom(used, steps, steps + TWO_32), used);
    case _ =>
  }

  // ---- the loops --------------------------------------------------------

  /** A name under repair, what the backend says of it, and how many fixes it may still need. */
  ghost predicate Standing(used: set<string>, utf8: string -> bool, p: Progress, name: string, steps: nat, why: Result, left: nat)
  {
    InProgress(used, p, name, steps) && why == Check(used, utf8, name) && left == Left(used, p, name, steps)
  }

  /** The fix of a report, and the answer of the backend to the new name. */
  method FixAndApply(h: Handler, parent: nat, id: nat, why: Result, used: set<string>, utf8: string -> bool, buf: array<char>,
                     ghost p: Progress, ghost steps: nat, ghost left: nat)
    returns (why': Result, ghost p': Progress, ghost steps': nat, ghost left': nat)
    requires h.Valid() && buf.Length == NAME_SIZE && id < TWO_64 && AsciiIsUtf8(utf8) && |used| < TWO_32
    requires h.parentId == parent && h.counter == Shown(steps) && why != End
    requires Standing(used, utf8, p, Text(buf[..]), steps, why, left)
    modifies h, buf
    ensures h.Valid() && h.parentId == parent && h.counter == Shown(steps')
    ensures left' < left && Standing(used, utf8, p', Text(buf[..]), steps', why', left')
  {
    SuffixIsPrintable(h.counter);
    FixMovesOn(used, utf8, p, Text(buf[..]), steps, id, h.translit);
    p' := NextProgress(why, p, steps);
    steps' := if why.Duplicate? then steps + 1 else steps;
    ShownNext(steps);
    h.HandleEntry(why, parent, id, buf);
    why' := Check(used, utf8, Text(buf[..]));
    left' := Left(used, p', Text(buf[..]), steps');
  }

  lemma ShownNext(n: nat)
    ensures Shown(n + 1) == (Shown(n) + 1) % TWO_32
  {
  }

  /** The same for the first report, of a name as the backend found it. */
  method FixAndApplyFirst(h: Handler, parent: nat, id: nat, ghost orig: string, why: Result, used: set<string>, utf8: string -> bool,
                          buf: array<char>) returns (why': Result, ghost p': Progress, ghost steps': nat, ghost left': nat)
    requires h.Valid() && buf.Length == NAME_SIZE && id < TWO_64
    requires Text(buf[..]) == Clipped(orig) && why == Check(used, utf8, orig) && why != End
    modifies h, buf
    ensures h.Valid() && h.parentId == parent && h.counter == Shown(steps')
    ensures left' <= MaxFixes(used) && Standing(used, utf8, p', Text(buf[..]), steps', why', left')
  {
    ghost var steps := h.CounterFor(parent);
    assert Shown(steps) == steps;
    SuffixIsPrintable(steps);
    FirstFix(used, utf8, orig, steps, id, h.translit);
    p' := NextProgress(why, START, steps);
    steps' := if why.Duplicate? then steps + 1 else steps;
    h.HandleEntry(why, parent, id, buf);
    why' := Check(used, utf8, Text(buf[..]));
    left' := Left(used, p', Text(buf[..]), steps');
  }

  /**
  `do_fsck` for one reported entry: the handler fixes the name and the backend is asked to take
  it, until it does. At the end the name is well-formed, not in use and proper text. The counter
  may wrap on the way; what matters is that fewer than 2^32 names are in use.
  */
  method Repair(h: Handler, parent: nat, id: nat, ghost orig: string, why0: Result, used: set<string>, utf8: string -> bool, buf: array<char>)
    returns (fixes: nat)
    requires h.Valid() && buf.Length == NAME_SIZE && id < TWO_64 && AsciiIsUtf8(utf8) && |used| < TWO_32
    requires Text(buf[..]) == Clipped(orig) && why0 == Check(used, utf8, orig) && why0 != End
    modifies h, buf
    ensures h.Valid() && h.parentId == parent
    ensures Check(used, utf8, Text(buf[..])) == End
    ensures 0 < fixes <= MaxFixes(used) + 1
  {
    ghost var most := MaxFixes(used) + 1;
    var why;
    ghost var p, steps, left;
    why, p, steps, left := FixAndApplyFirst(h, parent, id, orig, why0, used, utf8, buf);
    fixes := 1;
    while why != End
      invariant h.Valid() && h.parentId == parent && h.counter == Shown(steps)
      invariant Standing(used, utf8, p, Text(buf[..]), steps, why, left)
      invariant 0 < fixes && fixes + left <= most
      decreases left
    {
      why, p, steps, left := FixAndApply(h, parent, id, why, used, utf8, buf, p, steps, left);
      fixes := fixes + 1;
    }
  }

  /** `strncpy` into the name buffer. */
  method Strncpy(name: string) returns (buf: array<char>)
    requires NulFree(name)
    ensures fresh(buf) && buf.Length == NAME_SIZE && Text(buf[..]) == Clipped(name)
  {
    var text := Clipped(name);
    buf := new char[NAME_SIZE](_ => NUL);
    CopyInto(buf, 0, text);
    assert buf[..][..|text|] == text;
    TextIs(buf[..], |text|);
  }

  /** Names that the backend has taken: well-formed, proper text, distinct and new to the directory. */
  ghost predicate Taken(used: set<string>, utf8: string -> bool, names: seq<string>)
  {
    && (forall i :: 0 <= i < |names| ==> ValidName(names[i]) && utf8(names[i]) && names[i] !in used)
    && (forall i, j :: 0 <= i < j < |names| ==> names[i] != names[j])
  }

  function NamesOf(names: seq<string>): (r: set<string>)
    ensures |r| <= |names|
  {
    if names == [] then {} else NamesOf(names[..|names| - 1]) + {names[|names| - 1]}
  }

  lemma {:induction false} NamesOfHas(names: seq<string>, i: nat)
    requires i < |names|
    ensures names[i] in NamesOf(names)
  {
    if i < |names| - 1 {
      NamesOfHas(names[..|names| - 1], i);
    }
  }

  lemma TakenNext(used: set<string>, utf8: string -> bool, names: seq<string>, name: string)
    requires Taken(used, utf8, names) && ValidName(name) && utf8(name) && name !in used + NamesOf(names)
    ensures Taken(used, utf8, names + [name])
  {
    forall i | 0 <= i < |names| ensures names[i] != name {
      NamesOfHas(names, i);
    }
  }

  /** One entry of a directory, after others that were repaired. */
  method RepairNext(h: Handler, parent: nat, id: nat, orig: string, used: set<string>, utf8: string -> bool, names: seq<string>)
    returns (name: string)
    requires h.Valid() && AsciiIsUtf8(utf8) && id < TWO_64 && NulFree(orig) && Check(used, utf8, orig) != End
    requires Taken(used, utf8, names) && |used| + |names| < TWO_32
    modifies h
    ensures h.Valid() && Taken(used, utf8, names + [name])
  {
    var buf := Strncpy(orig);
    var taken := used + NamesOf(names);
    UnionSize(used, NamesOf(names));
    var fixes := Repair(h, parent, id, orig, Check(taken, utf8, orig), taken, utf8, buf);
    name := Text(buf[..]);
    TakenNext(used, utf8, names, name);
  }

  /**
  `do_fsck` for a directory with the good names `used`: every bad entry, in the order in which
  the backend reports them, gets a name of its own.
  */
  method RepairAll(h: Handler, parent: nat, ids: seq<nat>, origs: seq<string>, used: set<string>, utf8: string -> bool)
    returns (names: seq<string>)
    requires h.Valid() && AsciiIsUtf8(utf8) && |ids| == |origs| && |used| + |origs| <= TWO_32
    requires forall i :: 0 <= i < |ids| ==> ids[i] < TWO_64 && NulFree(origs[i]) && Check(used, utf8, origs[i]) != End
    modifies h
    ensures h.Valid() && |names| == |origs| && Taken(used, utf8, names)
  {
    names := [];
    for i := 0 to |origs|
      invariant h.Valid() && |names| == i && Taken(used, utf8, names)
    {
      var name := RepairNext(h, parent, ids[i], origs[i], used, utf8, names);
      names := names + [name];
    }
  }

  lemma UnionSize<T>(a: set<T>, b: set<T>)
    ensures |a + b| <= |a| + |b|
  {
    assert a + b == a + (b - a);
    SubsetSize(b - a, b);
  }
}
