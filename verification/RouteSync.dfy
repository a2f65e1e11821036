/** Inserting decorator lines into a source file: `_ensure_route_import` and the insertion loop of scripts/sync_route_decorators.py. */
module RouteSync {
  import opened Text

  /** A line to insert above line `lineno` of the file, counted from 1. */
  datatype Insertion = Insertion(lineno: nat, text: string)

  ghost predicate InFile(ins: seq<Insertion>, n: nat) {
    forall x | x in ins :: 1 <= x.lineno <= n
  }

  /***** Simultaneous insertion *****/

  /** The texts for one line, the last one given first. */
  function Above(ins: seq<Insertion>, lineno: nat): seq<string> {
    if ins == [] then []
    else
      var last := ins[|ins| - 1];
      (if last.lineno == lineno then [last.text] else []) + Above(ins[..|ins| - 1], lineno)
  }

  /** The first `k` lines with all insertions made at once, each above its own line. */
  function Woven(lines: seq<string>, ins: seq<Insertion>, k: nat): seq<string>
    requires k <= |lines|
  {
    if k == 0 then [] else Woven(lines, ins, k - 1) + Above(ins, k) + [lines[k - 1]]
  }

  /** Which of the woven lines were there before, `mask` telling it of the lines woven into. */
  function Origin(ins: seq<Insertion>, mask: seq<bool>, k: nat): seq<bool>
    requires k <= |mask|
  {
    if k == 0 then [] else Origin(ins, mask, k - 1) + seq(|Above(ins, k)|, i => false) + [mask[k - 1]]
  }

  function Kept(lines: seq<string>, flags: seq<bool>): seq<string>
    requires |lines| == |flags|
  {
    if lines == [] then []
    else Kept(lines[..|lines| - 1], flags[..|flags| - 1]) + if flags[|flags| - 1] then [lines[|lines| - 1]] else []
  }

  lemma {:induction false} OriginLength(lines: seq<string>, mask: seq<bool>, ins: seq<Insertion>, k: nat)
    requires k <= |lines| == |mask|
    ensures |Origin(ins, mask, k)| == |Woven(lines, ins, k)|
  {
    if k > 0 {
      OriginLength(lines, mask, ins, k - 1);
    }
  }

  lemma {:induction false} KeptConcat(a: seq<string>, fa: seq<bool>, b: seq<string>, fb: seq<bool>)
    requires |a| == |fa| && |b| == |fb|
    ensures Kept(a + b, fa + fb) == Kept(a, fa) + Kept(b, fb)
  {
    if b == [] {
      assert a + b == a && fa + fb == fa;
    } else {
      KeptConcat(a, fa, b[..|b| - 1], fb[..|fb| - 1]);
      assert (a + b)[..|a + b| - 1] == a + b[..|b| - 1] && (fa + fb)[..|fa + fb| - 1] == fa + fb[..|fb| - 1];
    }
  }

  lemma {:induction false} NoneKept(lines: seq<string>, flags: seq<bool>)
    requires |lines| == |flags| && forall i | 0 <= i < |flags| :: !flags[i]
    ensures Kept(lines, flags) == []
  {
    if lines != [] {
      NoneKept(lines[..|lines| - 1], flags[..|flags| - 1]);
    }
  }

  /** Deleting the inserted lines undoes the insertion. */
  lemma {:induction false} EraseWoven(lines: seq<string>, mask: seq<bool>, ins: seq<Insertion>, k: nat)
    requires k <= |lines| == |mask|
    ensures |Origin(ins, mask, k)| == |Woven(lines, ins, k)|
    ensures Kept(Woven(lines, ins, k), Origin(ins, mask, k)) == Kept(lines[..k], mask[..k])
  {
    hide Above, Kept, Woven, Origin;
    OriginLength(lines, mask, ins, k);
    if k == 0 {
      NothingWoven(lines, mask, ins);
    } else {
      EraseWoven(lines, mask, ins, k - 1);
      OriginLength(lines, mask, ins, k - 1);
      WovenNext(lines, ins, k);
      OriginNext(mask, ins, k);
      var w, o, above := Woven(lines, ins, k - 1), Origin(ins, mask, k - 1), Above(ins, k);
      KeptNext(w, o, above, lines[k - 1], mask[k - 1]);
      KeptConcat(lines[..k - 1], mask[..k - 1], [lines[k - 1]], [mask[k - 1]]);
      assert lines[..k] == lines[..k - 1] + [lines[k - 1]] && mask[..k] == mask[..k - 1] + [mask[k - 1]];
    }
  }

  lemma NothingWoven(lines: seq<string>, mask: seq<bool>, ins: seq<Insertion>)
    requires |lines| == |mask|
    ensures Woven(lines, ins, 0) == [] && Origin(ins, mask, 0) == [] && lines[..0] == [] && mask[..0] == []
  {
  }

  lemma OriginNext(mask: seq<bool>, ins: seq<Insertion>, k: nat)
    requires 0 < k <= |mask|
    ensures Origin(ins, mask, k) == Origin(ins, mask, k - 1) + (seq(|Above(ins, k)|, i => false) + [mask[k - 1]])
  {
    hide Above;
  }

  lemma KeptNext(w: seq<string>, o: seq<bool>, above: seq<string>, line: string, flag: bool)
    requires |w| == |o|
    ensures Kept(w + (above + [line]), o + (seq(|above|, i => false) + [flag])) == Kept(w, o) + Kept([line], [flag])
  {
    hide Kept;
    var flags := seq(|above|, i => false);
    KeptConcat(w, o, above + [line], flags + [flag]);
    KeptConcat(above, flags, [line], [flag]);
    NoneKept(above, flags);
  }

  lemma KeptAbove(w: seq<string>, o: seq<bool>, above: seq<string>)
    requires |w| == |o|
    ensures Kept(w + above, o + seq(|above|, i => false)) == Kept(w, o)
  {
    var flags := seq(|above|, i => false);
    KeptConcat(w, o, above, flags);
    NoneKept(above, flags);
  }

  lemma {:induction false} AllKept(lines: seq<string>, flags: seq<bool>)
    requires |lines| == |flags| && forall i | 0 <= i < |flags| :: flags[i]
    ensures Kept(lines, flags) == lines
  {
    if lines != [] {
      AllKept(lines[..|lines| - 1], flags[..|flags| - 1]);
    }
  }

  lemma {:induction false} WovenPrefix(lines: seq<string>, ins: seq<Insertion>, j: nat, k: nat)
    requires j <= k <= |lines|
    ensures Woven(lines, ins, j) <= Woven(lines, ins, k)
  {
    if j < k {
      WovenPrefix(lines, ins, j, k - 1);
    }
  }

  /** Directly above line `l` stand the decorators for that line, and between them and the line nothing. */
  lemma WovenAt(lines: seq<string>, ins: seq<Insertion>, l: nat)
    requires 1 <= l <= |lines|
    ensures var all, start := Woven(lines, ins, |lines|), |Woven(lines, ins, l - 1)|;
            start + |Above(ins, l)| < |all| &&
            all[start..start + |Above(ins, l)|] == Above(ins, l) && all[start + |Above(ins, l)|] == lines[l - 1]
  {
    WovenPrefix(lines, ins, l, |lines|);
    var all, before, above := Woven(lines, ins, |lines|), Woven(lines, ins, l - 1), Above(ins, l);
    var here := before + above + [lines[l - 1]];
    assert here == all[..|here|];
    assert all[|before|..|before| + |above|] == here[|before|..|before| + |above|] == above;
  }

  /***** Sorting *****/

  /** `x` goes behind everything that is not smaller. */
  function Place(sorted: seq<Insertion>, x: Insertion): seq<Insertion> {
    if sorted == [] then [x]
    else if sorted[|sorted| - 1].lineno >= x.lineno then sorted + [x]
    else Place(sorted[..|sorted| - 1], x) + [sorted[|sorted| - 1]]
  }

  /** `sorted(ins, key=lineno, reverse=True)`: descending, equal keys in their original order. */
  function Sorted(ins: seq<Insertion>): seq<Insertion> {
    if ins == [] then [] else Place(Sorted(ins[..|ins| - 1]), ins[|ins| - 1])
  }

  ghost predicate Descending(ins: seq<Insertion>) {
    forall i, j | 0 <= i < j < |ins| :: ins[i].lineno >= ins[j].lineno
  }

  lemma {:induction false} AboveConcat(a: seq<Insertion>, b: seq<Insertion>, l: nat)
    ensures Above(a + b, l) == Above(b, l) + Above(a, l)
  {
    hide Above;
    if b == [] {
      NoneAbove(b, l);
      assert a + b == a;
    } else {
      var init, last := b[..|b| - 1], b[|b| - 1];
      AboveConcat(a, init, l);
      AboveLast(a + init, last, l);
      AboveLast(init, last, l);
      LastApart(a, b);
    }
  }

  lemma NoneAbove(ins: seq<Insertion>, l: nat)
    requires ins == []
    ensures Above(ins, l) == []
  {
  }

  lemma LastApart(a: seq<Insertion>, b: seq<Insertion>)
    requires b != []
    ensures b == b[..|b| - 1] + [b[|b| - 1]] && a + b == a + b[..|b| - 1] + [b[|b| - 1]]
  {
  }

  lemma AboveLast(init: seq<Insertion>, last: Insertion, l: nat)
    ensures Above(init + [last], l) == (if last.lineno == l then [last.text] else []) + Above(init, l)
  {
    var all := init + [last];
    assert all[..|all| - 1] == init && all[|all| - 1] == last;
  }

  lemma AppendDescending(a: seq<Insertion>, x: Insertion)
    requires Descending(a) && forall y | y in a :: y.lineno >= x.lineno
    ensures Descending(a + [x])
  {
  }

  lemma DescendingEnd(a: seq<Insertion>)
    requires Descending(a) && a != []
    ensures Descending(a[..|a| - 1]) && a == a[..|a| - 1] + [a[|a| - 1]]
    ensures forall y | y in a :: y.lineno >= a[|a| - 1].lineno
  {
  }

  lemma {:induction false} PlaceDescending(sorted: seq<Insertion>, x: Insertion)
    requires Descending(sorted)
    ensures Descending(Place(sorted, x)) && multiset(Place(sorted, x)) == multiset(sorted) + multiset{x}
  {
    hide Descending;
    if sorted == [] {
      NothingDescends(sorted);
      AppendDescending(sorted, x);
      assert sorted + [x] == [x];
    } else {
      var init, last := sorted[..|sorted| - 1], sorted[|sorted| - 1];
      DescendingEnd(sorted);
      if last.lineno < x.lineno {
        PlaceDescending(init, x);
        forall y | y in Place(init, x)
          ensures y.lineno >= last.lineno
        {
          assert y in multiset(Place(init, x));
          assert y in init || y == x;
        }
        AppendDescending(Place(init, x), last);
      } else {
        AppendDescending(sorted, x);
      }
    }
  }

  lemma NothingDescends(a: seq<Insertion>)
    requires a == []
    ensures Descending(a)
  {
  }

  lemma {:induction false} PlaceAbove(sorted: seq<Insertion>, x: Insertion, l: nat)
    ensures Above(Place(sorted, x), l) == Above(sorted + [x], l)
  {
    hide Above;
    if sorted == [] {
      assert sorted + [x] == [x];
    } else {
      var init, last := sorted[..|sorted| - 1], sorted[|sorted| - 1];
      assert sorted == init + [last];
      if last.lineno < x.lineno {
        PlaceAbove(init, x, l);
        AboveConcat(Place(init, x), [last], l);
        AboveConcat(init, [x], l);
        AboveConcat(sorted, [x], l);
        AboveConcat(init, [last], l);
        OnlyOneAt(last, x, l);
        var p, q, r := Above([last], l), Above([x], l), Above(init, l);
        assert p + (q + r) == q + (p + r) by {
          assert p == [] ==> p + (q + r) == q + r && p + r == r;
          assert q == [] ==> q + (p + r) == p + r && q + r == r;
        }
      }
    }
  }

  lemma OnlyOneAt(a: Insertion, b: Insertion, l: nat)
    requires a.lineno != b.lineno
    ensures Above([a], l) == [] || Above([b], l) == []
  {
    assert [a][..0] == [] && [b][..0] == [];
  }

  lemma {:induction false} SortedSpec(ins: seq<Insertion>, l: nat)
    ensures Descending(Sorted(ins)) && multiset(Sorted(ins)) == multiset(ins)
    ensures Above(Sorted(ins), l) == Above(ins, l)
  {
    if ins != [] {
      var init, last := ins[..|ins| - 1], ins[|ins| - 1];
      assert ins == init + [last];
      SortedSpec(init, l);
      PlaceDescending(Sorted(init), last);
      PlaceAbove(Sorted(init), last, l);
      AboveConcat(Sorted(init), [last], l);
      AboveConcat(init, [last], l);
    }
  }

  lemma {:induction false} WovenSame(lines: seq<string>, a: seq<Insertion>, b: seq<Insertion>, k: nat)
    requires k <= |lines| && forall l :: Above(a, l) == Above(b, l)
    ensures Woven(lines, a, k) == Woven(lines, b, k)
  {
    hide Above;
    if k > 0 {
      WovenSame(lines, a, b, k - 1);
    }
  }

  /***** The insertion loop *****/

  lemma {:induction false} NothingAbove(done: seq<Insertion>, x: Insertion, l: nat)
    requires l < x.lineno && forall y | y in done :: y.lineno >= x.lineno
    ensures Above(done, l) == []
  {
    if done != [] {
      assert done[|done| - 1] in done && forall y | y in done[..|done| - 1] :: y in done;
      NothingAbove(done[..|done| - 1], x, l);
    }
  }

  lemma {:induction false} WovenStart(lines: seq<string>, done: seq<Insertion>, x: Insertion, k: nat)
    requires k < x.lineno && k <= |lines| && forall y | y in done :: y.lineno >= x.lineno
    ensures Woven(lines, done, k) == lines[..k]
  {
    if k > 0 {
      WovenStart(lines, done, x, k - 1);
      NothingAbove(done, x, k);
    }
  }

  /** Inserting above the topmost line touched so far adds one insertion to the woven file. */
  lemma {:induction false} InsertTopmost(lines: seq<string>, done: seq<Insertion>, x: Insertion, k: nat)
    requires 1 <= x.lineno <= k <= |lines| && forall y | y in done :: y.lineno >= x.lineno
    ensures var before := Woven(lines, done, k);
            x.lineno - 1 <= |before| && before[..x.lineno - 1] == lines[..x.lineno - 1] &&
            Woven(lines, done + [x], k) == before[..x.lineno - 1] + [x.text] + before[x.lineno - 1..]
    decreases k
  {
    if k == x.lineno {
      InsertAtTop(lines, done, x);
    } else {
      hide Above, Woven;
      var at := x.lineno - 1;
      InsertTopmost(lines, done, x, k - 1);
      AboveUnchanged(done, x, k);
      WovenNext(lines, done, k);
      WovenNext(lines, done + [x], k);
      InsertBelow(Woven(lines, done, k - 1), Above(done, k) + [lines[k - 1]], at, x.text);
    }
  }

  lemma WovenNext(lines: seq<string>, ins: seq<Insertion>, k: nat)
    requires 0 < k <= |lines|
    ensures Woven(lines, ins, k) == Woven(lines, ins, k - 1) + (Above(ins, k) + [lines[k - 1]])
  {
    hide Above;
  }

  lemma AboveUnchanged(done: seq<Insertion>, x: Insertion, l: nat)
    requires x.lineno != l
    ensures Above(done + [x], l) == Above(done, l)
  {
    hide Above;
    AboveConcat(done, [x], l);
    AboveOne(x, l);
  }

  lemma InsertAtTop(lines: seq<string>, done: seq<Insertion>, x: Insertion)
    requires 1 <= x.lineno <= |lines| && forall y | y in done :: y.lineno >= x.lineno
    ensures var before, at := Woven(lines, done, x.lineno), x.lineno - 1;
            at <= |before| && before[..at] == lines[..at] &&
            Woven(lines, done + [x], x.lineno) == before[..at] + [x.text] + before[at..]
  {
    hide Above, Woven;
    var k, at := x.lineno, x.lineno - 1;
    AboveConcat(done, [x], k);
    AboveOne(x, k);
    WovenStart(lines, done, x, at);
    WovenStart(lines, done + [x], x, at);
    WovenNext(lines, done, k);
    WovenNext(lines, done + [x], k);
    InsertFront(lines[..at], [x.text], Above(done, k), [lines[at]]);
  }

  lemma InsertFront(head: seq<string>, text: seq<string>, above: seq<string>, line: seq<string>)
    ensures var before := head + (above + line);
            before[..|head|] == head && head + ((text + above) + line) == before[..|head|] + text + before[|head|..]
  {
  }

  lemma AboveOne(x: Insertion, l: nat)
    ensures Above([x], l) == if x.lineno == l then [x.text] else []
  {
    assert [x][..0] == [];
  }

  lemma InsertBelow(w: seq<string>, tail: seq<string>, at: nat, text: string)
    requires at <= |w|
    ensures (w + tail)[..at] == w[..at]
    ensures (w[..at] + [text] + w[at..]) + tail == (w + tail)[..at] + [text] + (w + tail)[at..]
  {
  }

  /** The list of lines that the script changes in place. */
  class Lines {
    var items: seq<string>

    constructor (lines: seq<string>)
      ensures items == lines
    {
      items := lines;
    }

    /** `lines.insert(at, line)` */
    method Insert(at: nat, line: string)
      requires at <= |items|
      modifies this
      ensures items == old(items)[..at] + [line] + old(items)[at..]
    {
      items := items[..at] + [line] + items[at..];
    }

    /** The insertion loop of `main`: the result is the simultaneous insertion into the lines as they were. */
    method InsertAll(insertions: seq<Insertion>)
      requires InFile(insertions, |items|)
      modifies this
      ensures items == Woven(old(items), insertions, |old(items)|)
    {
      hide Above, Woven, Sorted;
      var sorted := Sorted(insertions);
      ghost var lines := items;
      forall l
        ensures Above(sorted, l) == Above(insertions, l)
      {
        SortedSpec(insertions, l);
      }
      SortedSpec(insertions, 0);
      WovenNothing(lines, |lines|);
      for k := 0 to |sorted|
        invariant items == Woven(lines, sorted[..k], |lines|)
      {
        assert sorted[k] in multiset(sorted);
        InsertTopmost(lines, sorted[..k], sorted[k], |lines|);
        Insert(sorted[k].lineno - 1, sorted[k].text);
        assert sorted[..k + 1] == sorted[..k] + [sorted[k]];
      }
      assert sorted[..|sorted|] == sorted;
      WovenSame(lines, sorted, insertions, |lines|);
    }

    /** `_ensure_route_import` */
    method EnsureRouteImport()
      modifies this
      ensures items == WithImport(old(items))
    {
      hide HasImport, ImportLine, FutureLine;
      if HasImport(items) {
        return;
      }
      var at := 0;
      for k := 0 to |items|
        invariant at == AfterFuture(items[..k])
      {
        assert items[..k + 1][..k] == items[..k];
        if FutureLine(items[k]) {
          at := k + 1;
        }
      }
      assert items[..|items|] == items;
      if at == 0 {
        var k := 0;
        while k < |items|
          invariant 0 <= k <= |items|
          invariant forall j | 0 <= j < k :: !ImportLine(items[j])
        {
          if ImportLine(items[k]) {
            at := k;
            break;
          }
          k := k + 1;
        }
        FirstImportAt(items, k);
      }
      AfterFutureBound(items);
      Insert(at, ROUTE_IMPORT);
    }

    /** One file's update: the import, then the decorators at their line numbers of before. */
    method Update(insertions: seq<Insertion>)
      requires InFile(insertions, |items|)
      modifies this
      ensures items == Updated(old(items), insertions)
    {
      EnsureRouteImport();
      InsertAll(insertions);
    }
  }

  lemma {:induction false} WovenNothing(lines: seq<string>, k: nat)
    requires k <= |lines|
    ensures Woven(lines, [], k) == lines[..k]
  {
    if k > 0 {
      WovenNothing(lines, k - 1);
    }
  }

  /***** The import line *****/

  const ROUTE_IMPORT := "from server.api.route_registry import route"

  predicate HasImport(lines: seq<string>) {
    exists line | line in lines :: Strip(line) == ROUTE_IMPORT
  }

  predicate FutureLine(line: string) {
    "from __future__ import" <= Strip(line)
  }

  predicate ImportLine(line: string) {
    "import " <= Strip(line) || "from " <= Strip(line)
  }

  /** One behind the last future import, or 0. */
  function AfterFuture(lines: seq<string>): nat {
    if lines == [] then 0
    else if FutureLine(lines[|lines| - 1]) then |lines|
    else AfterFuture(lines[..|lines| - 1])
  }

  /** The first import, or 0. */
  function FirstImport(lines: seq<string>): nat {
    if exists i | 0 <= i < |lines| :: ImportLine(lines[i]) then LeastImport(lines) else 0
  }

  function LeastImport(lines: seq<string>): (i: nat)
    requires exists i | 0 <= i < |lines| :: ImportLine(lines[i])
    ensures i < |lines| && ImportLine(lines[i]) && forall j | 0 <= j < i :: !ImportLine(lines[j])
  {
    if ImportLine(lines[0]) then 0
    else
      assert exists i | 0 <= i < |lines[1..]| :: ImportLine(lines[1..][i]) by {
        var i :| 0 <= i < |lines| && ImportLine(lines[i]);
        assert lines[1..][i - 1] == lines[i];
      }
      1 + LeastImport(lines[1..])
  }

  lemma FirstImportAt(lines: seq<string>, k: nat)
    requires k <= |lines| && (forall j | 0 <= j < k :: !ImportLine(lines[j])) && (k < |lines| ==> ImportLine(lines[k]))
    ensures FirstImport(lines) == if k < |lines| then k else 0
  {
  }

  lemma {:induction false} AfterFutureBound(lines: seq<string>)
    ensures AfterFuture(lines) <= |lines|
  {
    if lines != [] {
      AfterFutureBound(lines[..|lines| - 1]);
    }
  }

  /** Where the import goes: behind the last future import, else before the first import, else at the top. */
  function ImportPosition(lines: seq<string>): (at: nat)
    ensures at <= |lines|
  {
    AfterFutureBound(lines);
    if AfterFuture(lines) != 0 then AfterFuture(lines) else FirstImport(lines)
  }

  function WithImport(lines: seq<string>): seq<string> {
    if HasImport(lines) then lines
    else lines[..ImportPosition(lines)] + [ROUTE_IMPORT] + lines[ImportPosition(lines)..]
  }

  /**
   * Which line stands below the decorators of line `l` after the update: the target itself if the import was there or
   * goes below the target; otherwise the import or the line before the target.
   */
  lemma Landing(lines: seq<string>, ins: seq<Insertion>, l: nat)
    requires 1 <= l <= |lines|
    ensures var updated := WithImport(lines);
            var all, start := Woven(updated, ins, |updated|), |Woven(updated, ins, l - 1)|;
            start + |Above(ins, l)| < |all| && all[start..start + |Above(ins, l)|] == Above(ins, l) &&
            all[start + |Above(ins, l)|] ==
              if HasImport(lines) || l - 1 < ImportPosition(lines) then lines[l - 1]
              else if l - 1 == ImportPosition(lines) then ROUTE_IMPORT
              else lines[l - 2]
  {
    hide WithImport, HasImport, ImportPosition, Above, Woven;
    WithImportAt(lines, l - 1);
    WovenAt(WithImport(lines), ins, l);
  }

  lemma WithImportAt(lines: seq<string>, i: nat)
    requires i < |lines|
    ensures |WithImport(lines)| >= |lines|
    ensures WithImport(lines)[i] ==
            if HasImport(lines) || i < ImportPosition(lines) then lines[i]
            else if i == ImportPosition(lines) then ROUTE_IMPORT
            else lines[i - 1]
  {
    hide HasImport, ImportPosition;
  }

  lemma {:induction false} LastFuture(lines: seq<string>)
    ensures AfterFuture(lines) <= |lines|
    ensures AfterFuture(lines) > 0 ==> FutureLine(lines[AfterFuture(lines) - 1])
    ensures forall k | AfterFuture(lines) <= k < |lines| :: !FutureLine(lines[k])
  {
    hide FutureLine;
    if lines != [] {
      LastFuture(lines[..|lines| - 1]);
    }
  }

  /** The import goes directly behind the last future import; without one, directly before the first import; else to the top. */
  lemma ImportPlace(lines: seq<string>)
    ensures forall k | 0 <= k < |lines| && FutureLine(lines[k]) :: k < ImportPosition(lines)
    ensures (exists k :: 0 <= k < |lines| && FutureLine(lines[k])) ==>
              ImportPosition(lines) > 0 && FutureLine(lines[ImportPosition(lines) - 1])
    ensures (forall k | 0 <= k < |lines| :: !FutureLine(lines[k])) ==>
              && (forall k | 0 <= k < ImportPosition(lines) :: !ImportLine(lines[k]))
              && ((exists k :: 0 <= k < |lines| && ImportLine(lines[k])) ==>
                    ImportPosition(lines) < |lines| && ImportLine(lines[ImportPosition(lines)]))
              && ((forall k | 0 <= k < |lines| :: !ImportLine(lines[k])) ==> ImportPosition(lines) == 0)
  {
    hide FutureLine, ImportLine;
    LastFuture(lines);
  }

  /** What the line tests look for, space around a line aside. */
  lemma LineTests(line: string, text: string, rest: string)
    requires IsTrim(line, text)
    ensures HasImport([line]) <==> text == "from server.api.route_registry import route"
    ensures text == "from __future__ import" + rest ==> FutureLine(line)
    ensures text == "import " + rest || text == "from " + rest ==> ImportLine(line)
  {
    hide IsTrim, Strip;
    TrimUnique(line, text);
    assert line in [line];
  }

  /** A second run adds no import. */
  lemma SecondRun(lines: seq<string>)
    ensures HasImport(WithImport(lines)) && WithImport(WithImport(lines)) == WithImport(lines)
  {
    hide ImportPosition, Strip;
    ImportStrips(ROUTE_IMPORT);
    if !HasImport(lines) {
      assert WithImport(lines)[ImportPosition(lines)] == ROUTE_IMPORT;
    }
  }

  lemma ImportStrips(line: string)
    requires line != "" && line[0] == 'f' && line[|line| - 1] == 'e'
    ensures Strip(line) == line
  {
    StripFixed(line);
  }

  /** The lines of the file with its import that were in the file. */
  function ImportMask(lines: seq<string>): seq<bool> {
    seq(|WithImport(lines)|, i => HasImport(lines) || i != ImportPosition(lines))
  }

  /** Of the first `k` lines with the import, those that were in the file. */
  lemma KeptOfImport(lines: seq<string>, k: nat)
    requires k <= |WithImport(lines)|
    ensures Kept(WithImport(lines)[..k], ImportMask(lines)[..k]) ==
            if HasImport(lines) || k <= ImportPosition(lines) then lines[..k] else lines[..k - 1]
  {
    hide HasImport, ImportPosition, Kept;
    var updated, mask, at := WithImport(lines), ImportMask(lines), ImportPosition(lines);
    if HasImport(lines) || k <= at {
      AllKept(updated[..k], mask[..k]);
    } else {
      AllKept(updated[..at], mask[..at]);
      KeptAbove(updated[..at], mask[..at], [ROUTE_IMPORT]);
      assert updated[..at + 1] == updated[..at] + [ROUTE_IMPORT] && mask[..at + 1] == mask[..at] + seq(1, i => false);
      AllKept(updated[at + 1..k], mask[at + 1..k]);
      KeptConcat(updated[..at + 1], mask[..at + 1], updated[at + 1..k], mask[at + 1..k]);
      assert updated[..k] == updated[..at + 1] + updated[at + 1..k] && mask[..k] == mask[..at + 1] + mask[at + 1..k];
      assert lines[..k - 1] == updated[..at] + updated[at + 1..k];
    }
  }

  /** The whole updated file, and which of its lines were in the file before. */
  function Updated(lines: seq<string>, ins: seq<Insertion>): seq<string> {
    Woven(WithImport(lines), ins, |WithImport(lines)|)
  }

  function UpdatedOrigin(lines: seq<string>, ins: seq<Insertion>): seq<bool> {
    Origin(ins, ImportMask(lines), |WithImport(lines)|)
  }

  /** Deleting the inserted lines, the import among them, restores the file. */
  lemma EraseRestores(lines: seq<string>, ins: seq<Insertion>)
    ensures |Updated(lines, ins)| == |UpdatedOrigin(lines, ins)|
    ensures Kept(Updated(lines, ins), UpdatedOrigin(lines, ins)) == lines
  {
    hide WithImport, ImportPosition, HasImport, Kept, Woven, Origin;
    var updated, mask := WithImport(lines), ImportMask(lines);
    EraseWoven(updated, mask, ins, |updated|);
    KeptOfImport(lines, |updated|);
    ImportSize(lines);
  }

  lemma ImportSize(lines: seq<string>)
    ensures |WithImport(lines)| == |lines| + if HasImport(lines) then 0 else 1
    ensures HasImport(lines) ==> WithImport(lines) == lines
    ensures lines[..|lines|] == lines
  {
    hide HasImport, ImportPosition;
  }

  /** The line at `p` of the updated file is line `l` of the file: it was there, behind `l - 1` others. */
  predicate IsLine(lines: seq<string>, ins: seq<Insertion>, p: nat, l: nat)
    requires p < |Updated(lines, ins)| == |UpdatedOrigin(lines, ins)|
  {
    UpdatedOrigin(lines, ins)[p] && |Kept(Updated(lines, ins)[..p], UpdatedOrigin(lines, ins)[..p])| == l - 1
  }

  /** Where the line below the decorators for line `l` is. */
  function BelowDecorators(lines: seq<string>, ins: seq<Insertion>, l: nat): nat
    requires 1 <= l <= |WithImport(lines)|
  {
    |Woven(WithImport(lines), ins, l - 1)| + |Above(ins, l)|
  }

  /** The decorators for line `l` end up directly above line `l` exactly when the import was there or goes below it. */
  lemma LandsOnTarget(lines: seq<string>, ins: seq<Insertion>, l: nat)
    requires 1 <= l <= |lines|
    ensures l <= |WithImport(lines)| && BelowDecorators(lines, ins, l) < |Updated(lines, ins)| == |UpdatedOrigin(lines, ins)|
    ensures IsLine(lines, ins, BelowDecorators(lines, ins, l), l) <==> HasImport(lines) || l - 1 < ImportPosition(lines)
  {
    hide HasImport, ImportPosition, WithImport, Kept, Above, Woven, Origin;
    var updated, mask := WithImport(lines), ImportMask(lines);
    ImportSize(lines);
    EraseRestores(lines, ins);
    WovenAt(updated, ins, l);
    OriginAt(updated, mask, ins, l);
    EraseWoven(updated, mask, ins, l - 1);
    KeptAbove(Woven(updated, ins, l - 1), Origin(ins, mask, l - 1), Above(ins, l));
    KeptOfImport(lines, l - 1);
  }

  /** The woven lines and their origin up to the line below the decorators for line `l`. */
  lemma OriginAt(lines: seq<string>, mask: seq<bool>, ins: seq<Insertion>, l: nat)
    requires 1 <= l <= |lines| == |mask|
    ensures var p, all, flags := |Woven(lines, ins, l - 1)| + |Above(ins, l)|, Woven(lines, ins, |lines|), Origin(ins, mask, |lines|);
            p < |all| == |flags| && flags[p] == mask[l - 1] && all[..p] == Woven(lines, ins, l - 1) + Above(ins, l) &&
            flags[..p] == Origin(ins, mask, l - 1) + seq(|Above(ins, l)|, i => false)
  {
    hide Above;
    WovenPrefix(lines, ins, l, |lines|);
    OriginPrefix(ins, mask, l, |lines|);
    OriginLength(lines, mask, ins, l - 1);
    OriginLength(lines, mask, ins, |lines|);
    var all, flags := Woven(lines, ins, |lines|), Origin(ins, mask, |lines|);
    var here, kept := Woven(lines, ins, l), Origin(ins, mask, l);
    assert here == all[..|here|] && kept == flags[..|kept|];
    assert here == Woven(lines, ins, l - 1) + Above(ins, l) + [lines[l - 1]];
    assert kept == Origin(ins, mask, l - 1) + seq(|Above(ins, l)|, i => false) + [mask[l - 1]];
  }

  lemma {:induction false} OriginPrefix(ins: seq<Insertion>, mask: seq<bool>, j: nat, k: nat)
    requires j <= k <= |mask|
    ensures Origin(ins, mask, j) <= Origin(ins, mask, k)
  {
    if j < k {
      OriginPrefix(ins, mask, j, k - 1);
    }
  }
}
