/**
The walk of the offline checker over the directories of a store. It gives one report per call,
and keeps where it is in a stack of directories that grows as it goes down.
*/
module FsckWalk {
  import opened Basics

  /** A directory: what the backend has to report of its entries, and the entries. */
  datatype Dir<+R> = Dir(reports: seq<R>, entries: seq<Entry<R>>)
  datatype Entry<+R> = Leaf | Sub(dir: Dir<R>)

  /** What a walk does, in order: it enters directories and reports bad entries. */
  datatype Event<+R> = Enter(dir: Dir<R>) | Report(report: R)

  function Reports<R>(reports: seq<R>): (e: seq<Event<R>>)
    ensures |e| == |reports|
  {
    seq(|reports|, i requires 0 <= i < |reports| => Report(reports[i]))
  }

  /** Everything that happens in a directory, once it is entered: a recursive walk. */
  function Inside<R>(dir: Dir<R>): (e: seq<Event<R>>)
    decreases dir, 0
  {
    Reports(dir.reports) + Below(dir.entries)
  }

  function Below<R>(entries: seq<Entry<R>>): (e: seq<Event<R>>)
    decreases entries, 1
  {
    if entries == [] then [] else One(entries[0]) + Below(entries[1..])
  }

  function One<R>(entry: Entry<R>): (e: seq<Event<R>>)
    decreases entry, 0
  {
    if entry.Leaf? then [] else [Enter(entry.dir)] + Inside(entry.dir)
  }

  // ---- the stack --------------------------------------------------------

  /** A directory on the stack: the offset is negative while its own entries are being checked. */
  datatype Frame<+R> = Frame(dir: Dir<R>, off: int, pos: nat)

  ghost predicate FrameOk<R>(f: Frame<R>)
  {
    f.pos <= |f.dir.reports| && f.off <= |f.dir.entries|
  }

  /** What is left to do in a directory on the stack. */
  function Left<R>(f: Frame<R>): (e: seq<Event<R>>)
    requires FrameOk(f)
  {
    if f.off < 0 then Reports(f.dir.reports[f.pos..]) + Below(f.dir.entries) else Below(f.dir.entries[f.off..])
  }

  ghost predicate StackOk<R>(stack: seq<Frame<R>>)
  {
    forall k :: 0 <= k < |stack| ==> FrameOk(stack[k])
  }

  /** What is left to do in all directories on the stack, the top one first. */
  function LeftAll<R>(stack: seq<Frame<R>>): (e: seq<Event<R>>)
    requires StackOk(stack)
  {
    if stack == [] then []
    else
      var n := |stack| - 1;
      Left(stack[n]) + LeftAll(stack[..n])
  }

  lemma LeftTop<R>(stack: seq<Frame<R>>, f: Frame<R>)
    requires StackOk(stack) && FrameOk(f)
    ensures StackOk(stack + [f]) && LeftAll(stack + [f]) == Left(f) + LeftAll(stack)
  {
    assert (stack + [f])[..|stack|] == stack;
  }

  /** The next report of the directory on top. */
  lemma ReportFirst<R>(f: Frame<R>)
    requires FrameOk(f) && f.off < 0 && f.pos < |f.dir.reports|
    ensures FrameOk(f.(pos := f.pos + 1))
    ensures Left(f) == [Report(f.dir.reports[f.pos])] + Left(f.(pos := f.pos + 1))
  {
    var r := f.dir.reports;
    assert Reports(r[f.pos..]) == [Report(r[f.pos])] + Reports(r[f.pos + 1..]);
    Assoc([Report(r[f.pos])], Reports(r[f.pos + 1..]), Below(f.dir.entries));
  }

  /** No more reports: on to the subdirectories. */
  lemma ReportsDone<R>(f: Frame<R>)
    requires FrameOk(f) && f.off < 0 && f.pos == |f.dir.reports|
    ensures FrameOk(f.(off := 0)) && Left(f.(off := 0)) == Left(f)
  {
    assert f.dir.entries[0..] == f.dir.entries;
    assert Reports(f.dir.reports[f.pos..]) == [];
  }

  /** `do_list`: the first subdirectory from the offset on. */
  method DoList<R>(f: Frame<R>) returns (f': Frame<R>, sub: Option<Dir<R>>)
    requires FrameOk(f) && f.off >= 0
    ensures FrameOk(f') && f'.dir == f.dir && f'.off >= 0
    ensures sub.None? ==> f' == f && Left(f) == []
    ensures sub.Some? ==> Left(f) == [Enter(sub.value)] + Inside(sub.value) + Left(f')
  {
    var entries := f.dir.entries;
    for idx := f.off to |entries|
      invariant Below(entries[idx..]) == Below(entries[f.off..])
    {
      assert entries[idx..][0] == entries[idx] && entries[idx..][1..] == entries[idx + 1..];
      match entries[idx] {
        case Leaf =>
        case Sub(dir) =>
          return f.(off := idx + 1), Some(dir);
      }
    }
    return f, None;
  }

  lemma NewFrame<R>(dir: Dir<R>)
    ensures FrameOk(Frame(dir, -1, 0)) && Left(Frame(dir, -1, 0)) == Inside(dir)
  {
    assert dir.reports[0..] == dir.reports;
  }

  ghost predicate AllEnter<R>(e: seq<Event<R>>)
  {
    forall k :: 0 <= k < |e| ==> e[k].Enter?
  }

  /** These directories have gone on to their subdirectories. */
  ghost predicate Checked<R>(frames: seq<Frame<R>>)
  {
    forall k :: 0 <= k < |frames| ==> frames[k].off >= 0
  }

  const INIT_SIZE: nat := 16

  class Walker<R> {
    var stack: array<Frame<R>>
    var top: nat
    const root: Dir<R>
    ghost var log: seq<Event<R>>

    /** Frames up to `d` are in order, and only that of `d` may still be checking its entries. */
    ghost predicate Running(d: nat)
      reads this, stack
    {
      INIT_SIZE <= stack.Length && d < stack.Length && StackOk(stack[..d + 1]) && Checked(stack[..d])
    }

    /** What is left to do, with `d` on top. */
    ghost function Todo(d: nat): (e: seq<Event<R>>)
      requires Running(d)
      reads this, stack
    {
      LeftAll(stack[..d + 1])
    }

    /** Between calls: what was done and what is left make up the whole walk. */
    ghost predicate Valid()
      reads this, stack
    {
      Running(top) && log + Todo(top) == [Enter(root)] + Inside(root)
    }

    constructor (root: Dir<R>)
      ensures Valid() && fresh(stack) && this.root == root && log == [Enter(root)]
    {
      this.root, top, log := root, 0, [Enter(root)];
      stack := new Frame<R>[INIT_SIZE](_ => Frame(root, -1, 0));
      new;
      NewFrame(root);
      LeftTop([], Frame(root, -1, 0));
      assert stack[..1] == [] + [Frame(root, -1, 0)];
    }

    /** Replaces the frame at `d`, which is the top or just above it. */
    method SetFrame(d: nat, f: Frame<R>)
      requires INIT_SIZE <= stack.Length && d < stack.Length && StackOk(stack[..d]) && Checked(stack[..d]) && FrameOk(f)
      modifies stack
      ensures stack[..d] == old(stack[..d]) && stack[d] == f
      ensures Running(d) && Todo(d) == Left(f) + LeftAll(old(stack[..d]))
    {
      stack[d] := f;
      assert stack[..d + 1] == stack[..d] + [f];
      LeftTop(stack[..d], f);
    }

    lemma TopFrame(d: nat)
      requires Running(d)
      ensures FrameOk(stack[d]) && StackOk(stack[..d]) && Todo(d) == Left(stack[d]) + LeftAll(stack[..d])
    {
      assert stack[..d + 1] == stack[..d] + [stack[d]];
      assert stack[..d + 1][d] == stack[d];
      forall k | 0 <= k < d ensures FrameOk(stack[..d][k]) {
        assert stack[..d + 1][k] == stack[..d][k];
      }
      LeftTop(stack[..d], stack[d]);
    }

    /** `do_fsck` on the top directory: its next report, if it has one; else on to its entries. */
    method CheckTop(d: nat) returns (r: Option<R>)
      requires Running(d)
      modifies stack
      ensures Running(d)
      ensures r.Some? ==> old(Todo(d)) == [Report(r.value)] + Todo(d)
      ensures r.None? ==> old(Todo(d)) == Todo(d) && stack[d].off >= 0
    {
      TopFrame(d);
      var f := stack[d];
      if f.off >= 0 {
        return None;
      }
      ghost var rest := LeftAll(stack[..d]);
      if f.pos < |f.dir.reports| {
        ReportFirst(f);
        SetFrame(d, f.(pos := f.pos + 1));
        Assoc([Report(f.dir.reports[f.pos])], Left(f.(pos := f.pos + 1)), rest);
        return Some(f.dir.reports[f.pos]);
      }
      ReportsDone(f);
      SetFrame(d, f.(off := 0));
      return None;
    }

    /** The inner loop: back to the nearest directory that has another subdirectory. */
    method FindSub(top: nat) returns (d: nat, sub: Option<Dir<R>>)
      requires Running(top) && stack[top].off >= 0
      modifies stack
      ensures d <= top && Running(d) && stack[d].off >= 0
      ensures sub.None? ==> d == 0 && old(Todo(top)) == [] && Todo(d) == []
      ensures sub.Some? ==> old(Todo(top)) == [Enter(sub.value)] + Inside(sub.value) + Todo(d)
    {
      d := top;
      while true
        invariant d <= top && Running(d) && Todo(d) == old(Todo(top))
        invariant stack[d].off >= 0
        decreases d
      {
        sub := ListTop(d);
        if sub.Some? || d == 0 {
          return;
        }
        d := d - 1;
      }
    }

    /** `do_list` on the directory at `d`. Without a subdirectory, only those below it are left. */
    method ListTop(d: nat) returns (sub: Option<Dir<R>>)
      requires Running(d) && stack[d].off >= 0
      modifies stack
      ensures Running(d) && stack[d].off >= 0
      ensures sub.Some? ==> old(Todo(d)) == [Enter(sub.value)] + Inside(sub.value) + Todo(d)
      ensures sub.None? ==> Todo(d) == old(Todo(d))
      ensures sub.None? && d == 0 ==> Todo(d) == []
      ensures sub.None? && d > 0 ==> Running(d - 1) && stack[d - 1].off >= 0 && Todo(d - 1) == Todo(d)
    {
      TopFrame(d);
      ghost var rest := LeftAll(stack[..d]);
      var f;
      f, sub := DoList(stack[d]);
      if sub.Some? {
        SetFrame(d, f);
        Assoc([Enter(sub.value)] + Inside(sub.value), Left(f), rest);
        return;
      }
      assert [] + rest == rest;
      if d == 0 {
        assert stack[..0] == [];
      } else {
        assert stack[..d] == stack[..d - 1 + 1];
        assert stack[..d] == stack[..d - 1] + [stack[d - 1]];
        assert stack[d - 1] == stack[..d][d - 1];
      }
    }

    /** Makes room for a frame at `d`: half as much again, with all frames kept. */
    method Grow(d: nat)
      requires INIT_SIZE <= stack.Length && d <= stack.Length
      modifies this`stack
      ensures d < stack.Length && INIT_SIZE <= stack.Length
      ensures stack == old(stack) || fresh(stack)
      ensures stack[..d] == old(stack[..d])
    {
      if d < stack.Length {
        return;
      }
      var size := stack.Length;
      stack := Enlarged(stack, size + size / 2, _ => Frame(root, -1, 0));
    }

    /** Enters a subdirectory of the directory at `d`. */
    method Push(d: nat, sub: Dir<R>)
      requires Running(d) && stack[d].off >= 0
      modifies this`stack, this`log, stack
      ensures stack == old(stack) || fresh(stack)
      ensures Running(d + 1) && Todo(d + 1) == Inside(sub) + old(Todo(d)) && log == old(log) + [Enter(sub)]
    {
      assert stack[..d + 1] == stack[..d] + [stack[d]];
      Grow(d + 1);
      NewFrame(sub);
      SetFrame(d + 1, Frame(sub, -1, 0));
      log := log + [Enter(sub)];
    }

    /** A round of the loop of `fsck_next`: a report, the end, or another directory entered. */
    method Round(d: nat, ghost whole: seq<Event<R>>) returns (r: Option<R>, more: bool, d': nat, ghost event: Event<R>)
      requires Running(d) && log + Todo(d) == whole
      modifies this`stack, this`log, stack
      ensures stack == old(stack) || fresh(stack)
      ensures Running(d') && log + Todo(d') == whole
      ensures r.Some? ==> event == Report(r.value) && log == old(log) + [event]
      ensures r.None? && !more ==> log == old(log) && log == whole
      ensures r.None? && more ==> event.Enter? && log == old(log) + [event]
      ensures r.None? && more ==> |Todo(d')| < |old(Todo(d))|
    {
      ghost var before := Todo(d);
      d' := d;
      r := CheckTop(d);
      if r.Some? {
        Assoc(log, [Report(r.value)], Todo(d));
        log := log + [Report(r.value)];
        return r, false, d, Report(r.value);
      }
      var sub;
      d', sub := FindSub(d);
      if sub.None? {
        assert log + [] == log;
        return None, false, d', Enter(root);
      }
      ghost var rest := Todo(d');
      Regroup(log, Enter(sub.value), Inside(sub.value), rest);
      Push(d', sub.value);
      return None, true, d' + 1, Enter(sub.value);
    }

    /**
    `fsck_next`, recursive: the next report in the order of the recursive walk. Directories
    without reports are entered on the way. When there is no report, the walk is complete.
    */
    method Next() returns (r: Option<R>, ghost entered: seq<Event<R>>)
      requires Valid()
      modifies this, stack
      ensures Valid() && (stack == old(stack) || fresh(stack))
      ensures AllEnter(entered)
      ensures r.Some? ==> log == old(log) + entered + [Report(r.value)]
      ensures r.None? ==> log == old(log) + entered && log == [Enter(root)] + Inside(root)
    {
      ghost var start, whole := log, [Enter(root)] + Inside(root);
      var d, more := top, true;
      ghost var event := Enter(root);
      entered := [];
      assert log == start + entered;
      while true
        invariant Running(d) && (stack == old(stack) || fresh(stack))
        invariant log + Todo(d) == whole
        invariant AllEnter(entered) && log == start + entered
        decreases |Todo(d)|
      {
        r, more, d, event := Round(d, whole);
        if r.Some? || !more {
          top := d;
          return;
        }
        Assoc(start, entered, [event]);
        entered := entered + [event];
      }
    }
  }

  lemma Regroup<X>(a: seq<X>, x: X, b: seq<X>, c: seq<X>)
    ensures a + ([x] + b + c) == a + [x] + (b + c)
  {
  }

  // ---- a whole run ------------------------------------------------------

  /** The bad entries of a directory and of all directories below it, a directory before its subdirectories. */
  function AllReports<R>(dir: Dir<R>): (r: seq<R>)
    decreases dir, 0
  {
    dir.reports + AllReportsBelow(dir.entries)
  }

  function AllReportsBelow<R>(entries: seq<Entry<R>>): (r: seq<R>)
    decreases entries, 1
  {
    if entries == [] then [] else AllReportsOne(entries[0]) + AllReportsBelow(entries[1..])
  }

  function AllReportsOne<R>(entry: Entry<R>): (r: seq<R>)
    decreases entry, 0
  {
    if entry.Leaf? then [] else AllReports(entry.dir)
  }

  function ReportsIn<R>(e: seq<Event<R>>): (r: seq<R>)
  {
    if e == [] then [] else (if e[0].Report? then [e[0].report] else []) + ReportsIn(e[1..])
  }

  lemma {:induction false} ReportsInConcat<R>(a: seq<Event<R>>, b: seq<Event<R>>)
    ensures ReportsIn(a + b) == ReportsIn(a) + ReportsIn(b)
  {
    if a == [] {
      assert a + b == b;
    } else {
      assert (a + b)[0] == a[0] && (a + b)[1..] == a[1..] + b;
      ReportsInConcat(a[1..], b);
    }
  }

  lemma {:induction false} ReportsInEnters<R>(e: seq<Event<R>>)
    requires AllEnter(e)
    ensures ReportsIn(e) == []
  {
    if e != [] {
      ReportsInEnters(e[1..]);
    }
  }

  lemma {:induction false} ReportsInReports<R>(r: seq<R>)
    ensures ReportsIn(Reports(r)) == r
  {
    if r != [] {
      assert Reports(r)[0] == Report(r[0]) && Reports(r)[1..] == Reports(r[1..]);
      ReportsInReports(r[1..]);
    }
  }

  lemma {:induction false} InsideReports<R>(dir: Dir<R>)
    ensures ReportsIn(Inside(dir)) == AllReports(dir)
    decreases dir, 0
  {
    ReportsInConcat(Reports(dir.reports), Below(dir.entries));
    ReportsInReports(dir.reports);
    BelowReports(dir.entries);
  }

  lemma {:induction false} BelowReports<R>(entries: seq<Entry<R>>)
    ensures ReportsIn(Below(entries)) == AllReportsBelow(entries)
    decreases entries, 1
  {
    if entries != [] {
      ReportsInConcat(One(entries[0]), Below(entries[1..]));
      BelowReports(entries[1..]);
      OneReports(entries[0]);
    }
  }

  lemma {:induction false} OneReports<R>(entry: Entry<R>)
    ensures ReportsIn(One(entry)) == AllReportsOne(entry)
    decreases entry, 0
  {
    if entry.Sub? {
      InsideReports(entry.dir);
      assert One(entry)[0] == Enter(entry.dir) && One(entry)[1..] == Inside(entry.dir);
    }
  }

  /** Asking for reports until there are none gives every bad entry of the tree, each once. */
  method RunAll<R>(root: Dir<R>) returns (all: seq<R>)
    ensures all == AllReports(root)
  {
    var w := new Walker(root);
    all := [];
    ghost var size := |[Enter(root)] + Inside(root)|;
    InsideReports(root);
    while true
      invariant w.Valid() && fresh(w) && fresh(w.stack) && w.root == root
      invariant w.log != [] && ReportsIn(w.log[1..]) == all && w.log[0] == Enter(root)
      decreases size - |w.log|
    {
      ghost var log := w.log;
      var r;
      ghost var entered;
      r, entered := w.Next();
      ReportsInEnters(entered);
      if r.None? {
        LogGrows(log, entered, []);
        assert w.log == log + entered + [];
        return;
      }
      LogGrows(log, entered, [Report(r.value)]);
      all := all + [r.value];
    }
  }

  lemma LogGrows<R>(log: seq<Event<R>>, entered: seq<Event<R>>, last: seq<Event<R>>)
    requires log != []
    ensures (log + entered + last)[0] == log[0]
    ensures ReportsIn((log + entered + last)[1..]) == ReportsIn(log[1..]) + ReportsIn(entered) + ReportsIn(last)
  {
    assert (log + entered + last)[1..] == log[1..] + entered + last;
    ReportsInConcat(log[1..] + entered, last);
    ReportsInConcat(log[1..], entered);
  }
}
