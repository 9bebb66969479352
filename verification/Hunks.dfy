/** The hunk builder of rom/bin/diff.ts. */
module Hunks {
  // A look-ahead state machine cuts an edit script into unified hunks.  It is proved to find
  // the maximal runs of the positions that a change reaches: one line after it, and `context`
  // lines before.

  import opened Options
  import opened Diff
  import opened Sequences

  datatype Hunk = Hunk(oldStart: int, oldCount: int, newStart: int, newCount: int, lines: seq<Edit>)

  /** The edits from lo up to, but not including, hi. */
  datatype Slice = Slice(lo: nat, hi: nat)

  // ---------------------------------------------------------------------------
  // What the hunks of a script are

  /** Some change stands at k - 1, at k, or at one of the `context` positions after k. */
  ghost predicate Covered(e: seq<Edit>, context: nat, k: int) {
    exists c :: 0 <= c < |e| && k - 1 <= c <= k + context && !e[c].Keep?
  }

  predicate In(s: Slice, k: int) {
    s.lo <= k < s.hi
  }

  ghost predicate Holds(r: seq<Slice>, k: int) {
    exists q :: 0 <= q < |r| && In(r[q], k)
  }

  ghost predicate InBounds(r: seq<Slice>, n: nat) {
    forall q :: 0 <= q < |r| ==> r[q].lo < r[q].hi <= n
  }

  /** Any two slices have a gap between them. */
  ghost predicate Apart(r: seq<Slice>) {
    forall p, q :: 0 <= p < q < |r| ==> r[p].hi < r[q].lo
  }

  /** The positions of a script, marked when covered. */
  ghost function Cover(e: seq<Edit>, context: nat): (c: seq<bool>)
    ensures |c| == |e| && forall k :: 0 <= k < |e| ==> c[k] == Covered(e, context, k)
  {
    seq(|e|, k requires 0 <= k < |e| => Covered(e, context, k))
  }

  /** The maximal runs of marked positions below n. */
  function Runs(c: seq<bool>, n: nat): (r: seq<Slice>)
    requires n <= |c|
    ensures InBounds(r, n)
    ensures n > 0 && c[n - 1] ==> r != []
  {
    if n == 0 then []
    else
      var r := Runs(c, n - 1);
      if !c[n - 1] then r
      else if n > 1 && c[n - 2] then r[..|r| - 1] + [Slice(r[|r| - 1].lo, n)]
      else r + [Slice(n - 1, n)]
  }

  /** The hunk that presents a slice of a script.  Its starts are the index of its first
      line plus one, also when it holds no line of that side. */
  function HunkOf(e: seq<Edit>, s: Slice): Hunk
    requires s.lo <= s.hi <= |e|
  {
    var lines := e[s.lo..s.hi];
    Hunk(|OldSide(e[..s.lo])| + 1, |OldSide(lines)|, |NewSide(e[..s.lo])| + 1, |NewSide(lines)|, lines)
  }

  function HunksOf(e: seq<Edit>, r: seq<Slice>): (h: seq<Hunk>)
    requires InBounds(r, |e|)
  {
    seq(|r|, q requires 0 <= q < |r| => HunkOf(e, r[q]))
  }

  /** The slices of a script's hunks. */
  ghost function Cuts(e: seq<Edit>, context: nat): seq<Slice> {
    Runs(Cover(e, context), |e|)
  }

  /** The last run ends at n when n - 1 is marked, and every run before n otherwise. */
  ghost predicate EndsAt(r: seq<Slice>, n: nat, marked: bool) {
    if marked then r != [] && r[|r| - 1].hi == n
    else forall q :: 0 <= q < |r| ==> r[q].hi < n
  }

  lemma GrowLast(r: seq<Slice>, n: nat)
    requires Apart(r) && r != []
    ensures var t := r[..|r| - 1] + [Slice(r[|r| - 1].lo, n)];
      && Apart(t) && EndsAt(t, n, true)
      && forall k :: (r[|r| - 1].hi <= n && !(r[|r| - 1].hi <= k < n) ==> (Holds(t, k) <==> Holds(r, k)))
  {
    var init, last := r[..|r| - 1], r[|r| - 1];
    ApartSnoc(init, Slice(last.lo, n));
    HoldsSnoc(init, Slice(last.lo, n));
    HoldsSnoc(init, last);
    assert r == init + [last];
  }

  lemma AddRun(r: seq<Slice>, n: nat)
    requires Apart(r) && n > 0 && EndsAt(r, n - 1, false)
    ensures var t := r + [Slice(n - 1, n)];
      && Apart(t) && EndsAt(t, n, true)
      && forall k :: Holds(t, k) <==> Holds(r, k) || k == n - 1
  {
    ApartSnoc(r, Slice(n - 1, n));
    HoldsSnoc(r, Slice(n - 1, n));
  }

  /** No two runs touch, and the last one reaches n exactly when n - 1 is marked. */
  lemma {:induction false} RunsApart(c: seq<bool>, n: nat)
    requires n <= |c|
    ensures Apart(Runs(c, n))
    ensures EndsAt(Runs(c, n), n, n > 0 && c[n - 1])
  {
    if n == 0 {
    } else {
      var r := Runs(c, n - 1);
      RunsApart(c, n - 1);
      if !c[n - 1] {
      } else if n > 1 && c[n - 2] {
        GrowLast(r, n);
      } else {
        AddRun(r, n);
      }
    }
  }

  /** The runs hold exactly the marked positions below n. */
  lemma {:induction false} RunsHold(c: seq<bool>, n: nat, k: nat)
    requires k < n <= |c|
    ensures c[k] <==> Holds(Runs(c, n), k)
    decreases n
  {
    if k < n - 1 {
      RunsHold(c, n - 1, k);
    }
    RunsApart(c, n - 1);
    LastTurn(c, n, k);
  }

  lemma LastTurn(c: seq<bool>, n: nat, k: nat)
    requires k < n <= |c|
    requires Apart(Runs(c, n - 1)) && EndsAt(Runs(c, n - 1), n - 1, n > 1 && c[n - 2])
    ensures k < n - 1 ==> (Holds(Runs(c, n), k) <==> Holds(Runs(c, n - 1), k))
    ensures Holds(Runs(c, n), n - 1) <==> c[n - 1]
  {
    var r := Runs(c, n - 1);
    if !c[n - 1] {
    } else if n > 1 && c[n - 2] {
      GrowLast(r, n);
      assert In(Runs(c, n)[|r| - 1], n - 1);
    } else {
      AddRun(r, n);
    }
  }

  /** The hunks of a script take up exactly its covered positions, and no two of them touch. */
  lemma CutsAreExact(e: seq<Edit>, context: nat)
    ensures Apart(Cuts(e, context))
    ensures forall k :: 0 <= k < |e| ==> (Covered(e, context, k) <==> Holds(Cuts(e, context), k))
  {
    RunsApart(Cover(e, context), |e|);
    forall k | 0 <= k < |e| ensures Covered(e, context, k) <==> Holds(Cuts(e, context), k) {
      RunsHold(Cover(e, context), |e|, k);
      assert Cover(e, context)[k] == Covered(e, context, k);
    }
  }

  lemma ApartSnoc(r: seq<Slice>, s: Slice)
    requires Apart(r) && forall p :: 0 <= p < |r| ==> r[p].hi < s.lo
    ensures Apart(r + [s])
  {
  }

  lemma {:induction false} HoldsSnoc(r: seq<Slice>, s: Slice)
    ensures forall k :: Holds(r + [s], k) <==> Holds(r, k) || In(s, k)
  {
    var t := r + [s];
    forall k ensures Holds(t, k) <==> Holds(r, k) || In(s, k) {
      if q :| 0 <= q < |r| && In(r[q], k) { assert t[q] == r[q]; }
      if q :| 0 <= q < |t| && In(t[q], k) { assert q < |r| ==> t[q] == r[q]; }
      assert t[|r|] == s;
    }
  }

  // ---------------------------------------------------------------------------
  // The state machine

  ghost predicate Ahead(e: seq<Edit>, from: nat, to: nat) {
    exists j :: from <= j < to && j < |e| && !e[j].Keep?
  }

  /** The look-ahead loops: is some edit from `from` up to `to` a change? */
  method ChangesAhead(edits: seq<Edit>, from: nat, to: nat) returns (ahead: bool)
    ensures ahead <==> Ahead(edits, from, to)
  {
    ahead := false;
    var j := from;
    while j < to && j < |edits|
      invariant from <= j
      invariant forall k :: from <= k < j && k < to && k < |edits| ==> edits[k].Keep?
    {
      if !edits[j].Keep? {
        ahead := true;
        break;
      }
      j := j + 1;
    }
  }

  function ContextLine(lines: seq<Line>, k: nat, shift: int, ofOld: bool): Edit
    requires k < |lines|
  {
    if ofOld then Keep(k, k + shift, lines[k]) else Keep(k + shift, k, lines[k])
  }

  /** The loops that put preceding context in front of a change: one kept line for each
      of lines[start..idx].  `shift` is the difference between the two files' numbers,
      and `ofOld` says which file the lines come from. */
  method PrecedingContext(lines: seq<Line>, start: nat, idx: nat, shift: int, ofOld: bool) returns (kept: seq<Edit>)
    requires start <= idx <= |lines|
    ensures |kept| == idx - start
    ensures forall k :: 0 <= k < |kept| ==> kept[k] == ContextLine(lines, start + k, shift, ofOld)
  {
    kept := [];
    for k := start to idx
      invariant |kept| == k - start
      invariant forall j :: 0 <= j < |kept| ==> kept[j] == ContextLine(lines, start + j, shift, ofOld)
    {
      kept := kept + [ContextLine(lines, k, shift, ofOld)];
    }
  }

  function Floor0(x: int): nat { if x < 0 then 0 else x }

  /** The finished hunks, and the open one. */
  function Emitted(hunks: seq<Hunk>, current: Option<Hunk>): seq<Hunk> {
    if current.Some? then hunks + [current.value] else hunks
  }

  /** Adds one edit to a hunk, counting it on the sides it belongs to. */
  function Push(h: Hunk, e: Edit): Hunk {
    h.(lines := h.lines + [e],
       oldCount := h.oldCount + (if e.Insert? then 0 else 1),
       newCount := h.newCount + (if e.Delete? then 0 else 1))
  }

  /** The hunk h at a change that finds none open: context first, and the header of
      the first line shown. */
  method OpenAtChange(edits: seq<Edit>, oldLines: seq<Line>, newLines: seq<Line>, contextLines: nat,
                      i: nat, oldIdx: nat, newIdx: nat)
      returns (h: Hunk)
    requires i < |edits| && !edits[i].Keep? && !OpenAt(edits, contextLines, i)
    requires oldIdx == |OldSide(edits[..i])| <= |oldLines| && newIdx == |NewSide(edits[..i])| <= |newLines|
    ensures h == EmptyHunk(edits, i)
  {
    NoPrecedingContext(edits, contextLines, i);
    if edits[i].Delete? {
      var contextStart := Floor0(oldIdx - contextLines);
      var kept := PrecedingContext(oldLines, contextStart, oldIdx, newIdx - oldIdx, true);
      h := Hunk(contextStart + 1, |kept|, newIdx + 1, |kept|, kept);
    } else {
      var contextStart := Floor0(newIdx - contextLines);
      var kept := PrecedingContext(newLines, contextStart, newIdx, oldIdx - newIdx, false);
      h := Hunk(oldIdx + 1, |kept|, contextStart + 1, |kept|, kept);
    }
  }

  /** A kept line: opens a hunk, grows the open one and perhaps closes it, or is skipped. */
  method OnKeep(edits: seq<Edit>, contextLines: nat, i: nat, oldIdx: nat, newIdx: nat,
                hunks: seq<Hunk>, current: Option<Hunk>)
      returns (hunks': seq<Hunk>, current': Option<Hunk>)
    requires i < |edits| && edits[i].Keep?
    requires oldIdx == |OldSide(edits[..i])| && newIdx == |NewSide(edits[..i])|
    requires current.Some? <==> OpenAt(edits, contextLines, i)
    ensures Emitted(hunks', current') ==
      if current.Some? then hunks + [Push(current.value, edits[i])]
      else if Covered(edits, contextLines, i) then hunks + [Push(EmptyHunk(edits, i), edits[i])]
      else hunks
    ensures current'.Some? <==>
      Covered(edits, contextLines, i) && (i + 1 < |edits| ==> Covered(edits, contextLines, i + 1))
  {
    hunks', current' := hunks, current;
    if current == None {
      LookAheadOpens(edits, contextLines, i);
      var ahead := ChangesAhead(edits, i + 1, i + 1 + contextLines);
      if ahead {
        current' := Some(Push(Hunk(oldIdx + 1, 0, newIdx + 1, 0, []), edits[i]));
      }
    } else {
      LookAheadKeepsOpen(edits, contextLines, i);
      current' := Some(Push(current.value, edits[i]));
      var ahead := ChangesAhead(edits, i + 1, i + 1 + contextLines + 1);
      if !ahead && i < |edits| - 1 {
        hunks' := hunks' + [current'.value];
        current' := None;
      }
    }
  }

  /** buildHunks: one pass with an open hunk or none. */
  method BuildHunks(edits: seq<Edit>, oldLines: seq<Line>, newLines: seq<Line>, contextLines: nat)
      returns (hunks: seq<Hunk>)
    requires OldSide(edits) == oldLines && NewSide(edits) == newLines
    ensures hunks == HunksOf(edits, Cuts(edits, contextLines))
    ensures Patch(oldLines, hunks, 0, 0) == Some(newLines)
    ensures Patch(newLines, FlipHunks(hunks), 0, 0) == Some(oldLines)
  {
    hunks := [];
    var current: Option<Hunk> := None;
    var oldIdx, newIdx := 0, 0;
    ghost var cover := Cover(edits, contextLines);
    for i := 0 to |edits|
      invariant oldIdx == |OldSide(edits[..i])| && newIdx == |NewSide(edits[..i])|
      invariant Emitted(hunks, current) == HunksOf(edits, Runs(cover, i))
      invariant current.Some? <==>
        i > 0 && Covered(edits, contextLines, i - 1) && (i < |edits| ==> Covered(edits, contextLines, i))
    {
      var edit := edits[i];
      Position(edits, oldLines, newLines, i);
      RunsStep(edits, cover, i, Emitted(hunks, current));
      if edit.Keep? {
        hunks, current := OnKeep(edits, contextLines, i, oldIdx, newIdx, hunks, current);
        oldIdx, newIdx := oldIdx + 1, newIdx + 1;
      } else {
        ChangeCovers(edits, contextLines, i);
        if current == None {
          var h := OpenAtChange(edits, oldLines, newLines, contextLines, i, oldIdx, newIdx);
          current := Some(h);
        }
        current := Some(Push(current.value, edit));
        if edit.Delete? {
          oldIdx := oldIdx + 1;
        } else {
          newIdx := newIdx + 1;
        }
      }
    }
    if current.Some? {
      hunks := hunks + [current.value];
    }
    PatchApplies(edits, oldLines, newLines, contextLines);
    ReversePatchApplies(edits, oldLines, newLines, contextLines);
  }

  // ---------------------------------------------------------------------------
  // One step of the machine

  lemma {:induction false} Position(e: seq<Edit>, a: seq<Line>, b: seq<Line>, i: nat)
    requires OldSide(e) == a && NewSide(e) == b && i < |e|
    ensures OldSide(e[..i + 1]) == OldSide(e[..i]) + (if e[i].Insert? then [] else [e[i].text])
    ensures NewSide(e[..i + 1]) == NewSide(e[..i]) + (if e[i].Delete? then [] else [e[i].text])
    ensures |OldSide(e[..i])| <= |a| && |NewSide(e[..i])| <= |b|
  {
    assert e[..i + 1] == e[..i] + [e[i]];
    SidesSnoc(e[..i], e[i]);
    assert e == e[..i] + e[i..];
    SidesConcat(e[..i], e[i..]);
  }

  /** Is a hunk open when the machine comes to position i < |e|? */
  ghost predicate OpenAt(e: seq<Edit>, context: nat, i: nat) {
    i > 0 && Covered(e, context, i - 1) && Covered(e, context, i)
  }

  /** A change met with no hunk open stands first in the script, or there is no context
      to show: the preceding-context loops never add a line. */
  lemma {:induction false} NoPrecedingContext(e: seq<Edit>, context: nat, i: nat)
    requires i < |e| && !e[i].Keep? && !OpenAt(e, context, i)
    ensures i == 0 || context == 0
  {
    if i > 0 && context > 0 {
      assert Covered(e, context, i - 1) && Covered(e, context, i);
    }
  }

  /** At a kept line outside every hunk, the look-ahead says whether that line is covered. */
  lemma {:induction false} LookAheadOpens(e: seq<Edit>, context: nat, i: nat)
    requires i < |e| && e[i].Keep? && !OpenAt(e, context, i)
    ensures Ahead(e, i + 1, i + 1 + context) <==> Covered(e, context, i)
    ensures Covered(e, context, i) ==> i == 0 || !Covered(e, context, i - 1)
  {
    if i > 0 && !e[i - 1].Keep? {
      assert Covered(e, context, i - 1) && Covered(e, context, i);
    }
    if c :| 0 <= c < |e| && i - 1 <= c <= i + context && !e[c].Keep? {
      assert i + 1 <= c;
    }
  }

  /** At a kept line inside a hunk, the look-ahead says whether the next line is covered. */
  lemma {:induction false} LookAheadKeepsOpen(e: seq<Edit>, context: nat, i: nat)
    requires i < |e| && e[i].Keep?
    ensures Ahead(e, i + 1, i + 2 + context) <==> Covered(e, context, i + 1)
  {
    if c :| 0 <= c < |e| && i <= c <= i + 1 + context && !e[c].Keep? {
      assert i + 1 <= c;
    }
  }

  /** A change is covered, and so is the line after it. */
  lemma {:induction false} ChangeCovers(e: seq<Edit>, context: nat, i: nat)
    requires i < |e| && !e[i].Keep?
    ensures Covered(e, context, i) && Covered(e, context, i + 1)
  {
  }

  /** A hunk that starts at position i and holds nothing yet. */
  function EmptyHunk(e: seq<Edit>, i: nat): Hunk
    requires i <= |e|
  {
    Hunk(|OldSide(e[..i])| + 1, 0, |NewSide(e[..i])| + 1, 0, [])
  }

  lemma {:induction false} RunsStep(e: seq<Edit>, c: seq<bool>, i: nat, before: seq<Hunk>)
    requires i < |e| == |c| && before == HunksOf(e, Runs(c, i))
    ensures i > 0 && c[i - 1] ==> before != []
    ensures HunksOf(e, Runs(c, i + 1)) ==
      if !c[i] then before
      else if i > 0 && c[i - 1] then before[..|before| - 1] + [Push(before[|before| - 1], e[i])]
      else before + [Push(EmptyHunk(e, i), e[i])]
  {
    var r := Runs(c, i);
    RunsApart(c, i);
    if !c[i] {
    } else if i > 0 && c[i - 1] {
      assert Runs(c, i + 1) == r[..|r| - 1] + [Slice(r[|r| - 1].lo, i + 1)];
      LastHunkGrows(e, r, i);
    } else {
      assert Runs(c, i + 1) == r + [Slice(i, i + 1)];
      NewHunkStarts(e, r, i);
    }
  }

  lemma NewHunkStarts(e: seq<Edit>, r: seq<Slice>, i: nat)
    requires i < |e| && InBounds(r, i)
    ensures HunksOf(e, r + [Slice(i, i + 1)]) == HunksOf(e, r) + [Push(EmptyHunk(e, i), e[i])]
  {
    HunkGrows(e, i, i);
    HunksOfSnoc(e, r, Slice(i, i + 1));
  }

  lemma {:induction false} LastHunkGrows(e: seq<Edit>, r: seq<Slice>, i: nat)
    requires i < |e| && InBounds(r, i) && r != [] && r[|r| - 1].hi == i
    ensures var before := HunksOf(e, r);
      HunksOf(e, r[..|r| - 1] + [Slice(r[|r| - 1].lo, i + 1)])
        == before[..|before| - 1] + [Push(before[|before| - 1], e[i])]
  {
    var init, last := r[..|r| - 1], r[|r| - 1];
    HunkGrows(e, last.lo, i);
    HunksOfSnoc(e, init, last);
    HunksOfSnoc(e, init, Slice(last.lo, i + 1));
    assert r == init + [last];
  }

  lemma {:induction false} HunksOfSnoc(e: seq<Edit>, r: seq<Slice>, s: Slice)
    requires InBounds(r, |e|) && s.lo < s.hi <= |e|
    ensures HunksOf(e, r + [s]) == HunksOf(e, r) + [HunkOf(e, s)]
  {
  }

  /** Pushing the next edit onto the hunk of a slice gives the hunk of the longer slice. */
  lemma {:induction false} HunkGrows(e: seq<Edit>, lo: nat, i: nat)
    requires lo <= i < |e|
    ensures HunkOf(e, Slice(lo, i + 1)) == Push(HunkOf(e, Slice(lo, i)), e[i])
  {
    assert e[lo..i + 1] == e[lo..i] + [e[i]];
    SidesSnoc(e[lo..i], e[i]);
  }

  // ---------------------------------------------------------------------------
  // Hunks as a patch

  /** Applies hunks as `patch` does, from their headers and lines alone.  Lines of `file`
      from `pos` on are still to be copied, and `written` lines have been produced.  A hunk
      is refused when its starts do not fit, its counts differ from its lines, or the lines
      it reads are not the ones in the file. */
  function Patch(file: seq<Line>, hunks: seq<Hunk>, pos: nat, written: nat): Option<seq<Line>>
    decreases |hunks|
  {
    if pos > |file| then None
    else if hunks == [] then Some(file[pos..])
    else
      var h := hunks[0];
      var start, taken, given := h.oldStart - 1, OldSide(h.lines), NewSide(h.lines);
      if !(pos <= start && h.newStart - 1 == written + (start - pos)) then None
      else if !(h.oldCount == |taken| && h.newCount == |given|) then None
      else if !(start + |taken| <= |file| && file[start..start + |taken|] == taken) then None
      else
        var rest := Patch(file, hunks[1..], start + |taken|, written + (start - pos) + |given|);
        if rest == None then None else Some(file[pos..start] + given + rest.value)
  }

  lemma {:induction false} OldConcat(s: seq<Edit>, t: seq<Edit>)
    ensures OldSide(s + t) == OldSide(s) + OldSide(t)
    decreases |t|
  {
    if t == [] {
      assert s + t == s;
    } else {
      var t', e := t[..|t| - 1], t[|t| - 1];
      OldConcat(s, t');
      Regroup(s, t', [e]);
      assert t == t' + [e];
      SidesSnoc(s + t', e);
      SidesSnoc(t', e);
    }
  }

  lemma {:induction false} NewConcat(s: seq<Edit>, t: seq<Edit>)
    ensures NewSide(s + t) == NewSide(s) + NewSide(t)
    decreases |t|
  {
    if t == [] {
      assert s + t == s;
    } else {
      var t', e := t[..|t| - 1], t[|t| - 1];
      NewConcat(s, t');
      Regroup(s, t', [e]);
      assert t == t' + [e];
      SidesSnoc(s + t', e);
      SidesSnoc(t', e);
    }
  }

  lemma SidesConcat(s: seq<Edit>, t: seq<Edit>)
    ensures OldSide(s + t) == OldSide(s) + OldSide(t)
    ensures NewSide(s + t) == NewSide(s) + NewSide(t)
  {
    OldConcat(s, t);
    NewConcat(s, t);
  }

  lemma {:induction false} AllKept(s: seq<Edit>)
    requires forall k :: 0 <= k < |s| ==> s[k].Keep?
    ensures OldSide(s) == NewSide(s) && |OldSide(s)| == |s|
  {
    if s == [] {
    } else {
      AllKept(s[..|s| - 1]);
    }
  }

  lemma OldSideCut(e: seq<Edit>, i: nat, j: nat)
    requires i <= j <= |e|
    ensures OldSide(e[i..]) == OldSide(e[i..j]) + OldSide(e[j..])
  {
    assert e[i..] == e[i..j] + e[j..];
    OldConcat(e[i..j], e[j..]);
  }

  lemma NewSideCut(e: seq<Edit>, i: nat, j: nat)
    requires i <= j <= |e|
    ensures NewSide(e[i..]) == NewSide(e[i..j]) + NewSide(e[j..])
  {
    assert e[i..] == e[i..j] + e[j..];
    NewConcat(e[i..j], e[j..]);
  }

  lemma SidesPrefix(e: seq<Edit>, i: nat, j: nat)
    requires i <= j <= |e|
    ensures |OldSide(e[..j])| == |OldSide(e[..i])| + |OldSide(e[i..j])|
    ensures |NewSide(e[..j])| == |NewSide(e[..i])| + |NewSide(e[i..j])|
  {
    assert e[..j] == e[..i] + e[i..j];
    SidesConcat(e[..i], e[i..j]);
  }

  ghost predicate KeptBetween(e: seq<Edit>, i: nat, j: nat) {
    forall k :: i <= k < j && k < |e| ==> e[k].Keep?
  }

  /** Slices that are in order from `from` on, with only kept lines outside them. */
  ghost predicate HoldChanges(r: seq<Slice>, e: seq<Edit>, from: nat) {
    if r == [] then KeptBetween(e, from, |e|)
    else
      && from <= r[0].lo < r[0].hi <= |e|
      && KeptBetween(e, from, r[0].lo)
      && HoldChanges(r[1..], e, r[0].hi)
  }

  lemma {:induction false} CutsHoldChanges(e: seq<Edit>, r: seq<Slice>, from: nat)
    requires from <= |e| && InBounds(r, |e|) && Apart(r)
    requires forall q :: 0 <= q < |r| ==> from <= r[q].lo
    requires forall k :: from <= k < |e| && !e[k].Keep? ==> Holds(r, k)
    ensures HoldChanges(r, e, from)
    decreases |r|
  {
    if r != [] {
      forall k | from <= k < |e| && !e[k].Keep?
        ensures k >= r[0].lo && (k >= r[0].hi ==> Holds(r[1..], k))
      {
        var q :| 0 <= q < |r| && In(r[q], k);
        if q > 0 {
          assert In(r[1..][q - 1], k);
        }
      }
      CutsHoldChanges(e, r[1..], r[0].hi);
    }
  }

  /** Any ordered slices that hold every change form a correct patch. */
  lemma {:induction false} PatchSlices(e: seq<Edit>, r: seq<Slice>, from: nat)
    requires from <= |e| && InBounds(r, |e|) && HoldChanges(r, e, from)
    ensures Patch(OldSide(e), HunksOf(e, r), |OldSide(e[..from])|, |NewSide(e[..from])|)
         == Some(NewSide(e[from..]))
    decreases |r|
  {
    if r == [] {
      PatchRest(e, from);
    } else {
      PatchSlices(e, r[1..], r[0].hi);
      PatchOne(e, r, from);
    }
  }

  lemma PatchRest(e: seq<Edit>, from: nat)
    requires from <= |e| && KeptBetween(e, from, |e|)
    ensures Patch(OldSide(e), [], |OldSide(e[..from])|, |NewSide(e[..from])|) == Some(NewSide(e[from..]))
  {
    assert e == e[..from] + e[from..];
    SidesConcat(e[..from], e[from..]);
    AllKept(e[from..]);
  }

  lemma PatchOne(e: seq<Edit>, r: seq<Slice>, from: nat)
    requires r != [] && from <= |e| && InBounds(r, |e|) && from <= r[0].lo && KeptBetween(e, from, r[0].lo)
    requires Patch(OldSide(e), HunksOf(e, r[1..]), |OldSide(e[..r[0].hi])|, |NewSide(e[..r[0].hi])|)
          == Some(NewSide(e[r[0].hi..]))
    ensures Patch(OldSide(e), HunksOf(e, r), |OldSide(e[..from])|, |NewSide(e[..from])|)
         == Some(NewSide(e[from..]))
  {
    var hs, lo, hi := HunksOf(e, r), r[0].lo, r[0].hi;
    FirstHunk(e, r);
    GapIsKept(e, from, lo);
    Headers(e, from, lo, hi);
    OldSlices(e, from, lo, hi);
    NewSlices(e, from, lo, hi);
    PatchFits(hs, HunksOf(e, r[1..]), OldSide(e[..from]), OldSide(e[from..lo]), OldSide(e[hi..]), OldSide(e),
              |NewSide(e[..from])|, |OldSide(e[..hi])|, |NewSide(e[..hi])|, NewSide(e[hi..]));
  }

  lemma FirstHunk(e: seq<Edit>, r: seq<Slice>)
    requires r != [] && InBounds(r, |e|)
    ensures var hs := HunksOf(e, r); hs != [] && hs[0] == HunkOf(e, r[0]) && hs[1..] == HunksOf(e, r[1..])
  {
  }

  lemma GapIsKept(e: seq<Edit>, from: nat, lo: nat)
    requires from <= lo <= |e| && KeptBetween(e, from, lo)
    ensures OldSide(e[from..lo]) == NewSide(e[from..lo])
  {
    AllKept(e[from..lo]);
  }

  lemma Headers(e: seq<Edit>, from: nat, lo: nat, hi: nat)
    requires from <= lo < hi <= |e| && OldSide(e[from..lo]) == NewSide(e[from..lo])
    ensures var h, gap := HunkOf(e, Slice(lo, hi)), |OldSide(e[from..lo])|;
      && h.oldStart == |OldSide(e[..from])| + gap + 1 && h.newStart == |NewSide(e[..from])| + gap + 1
      && |OldSide(e[..hi])| == |OldSide(e[..from])| + gap + h.oldCount
      && |NewSide(e[..hi])| == |NewSide(e[..from])| + gap + h.newCount
  {
    SidesPrefix(e, from, lo);
    SidesPrefix(e, lo, hi);
  }

  lemma PatchFits(hs: seq<Hunk>, more: seq<Hunk>, top: seq<Line>, gap: seq<Line>, tail: seq<Line>, file: seq<Line>,
                  written: nat, pos': nat, written': nat, after: seq<Line>)
    requires hs != [] && more == hs[1..] && file == top + gap + OldSide(hs[0].lines) + tail
    requires hs[0].oldStart == |top| + |gap| + 1 && hs[0].newStart == written + |gap| + 1
    requires hs[0].oldCount == |OldSide(hs[0].lines)| && hs[0].newCount == |NewSide(hs[0].lines)|
    requires pos' == |top| + |gap| + hs[0].oldCount && written' == written + |gap| + hs[0].newCount
    requires Patch(file, more, pos', written') == Some(after)
    ensures Patch(file, hs, |top|, written) == Some(gap + NewSide(hs[0].lines) + after)
  {
    PatchFirst(hs, top, gap, OldSide(hs[0].lines), tail, written, after);
  }

  lemma OldSlices(e: seq<Edit>, from: nat, lo: nat, hi: nat)
    requires from <= lo <= hi <= |e|
    ensures OldSide(e) == OldSide(e[..from]) + OldSide(e[from..lo]) + OldSide(e[lo..hi]) + OldSide(e[hi..])
  {
    assert e == e[..from] + e[from..];
    OldConcat(e[..from], e[from..]);
    OldSideCut(e, from, lo);
    OldSideCut(e, lo, hi);
    RegroupFour(OldSide(e[..from]), OldSide(e[from..lo]), OldSide(e[lo..hi]), OldSide(e[hi..]));
  }

  lemma NewSlices(e: seq<Edit>, from: nat, lo: nat, hi: nat)
    requires from <= lo <= hi <= |e|
    ensures NewSide(e[from..]) == NewSide(e[from..lo]) + NewSide(e[lo..hi]) + NewSide(e[hi..])
  {
    NewSideCut(e, from, lo);
    NewSideCut(e, lo, hi);
  }

  /** Applying the hunks to the old file gives the new one, whatever the context. */
  lemma {:induction false} PatchApplies(e: seq<Edit>, a: seq<Line>, b: seq<Line>, context: nat)
    requires OldSide(e) == a && NewSide(e) == b
    ensures Patch(a, HunksOf(e, Cuts(e, context)), 0, 0) == Some(b)
  {
    var r := Cuts(e, context);
    CutsAreExact(e, context);
    assert forall k :: 0 <= k < |e| && !e[k].Keep? ==> Covered(e, context, k);
    CutsHoldChanges(e, r, 0);
    PatchSlices(e, r, 0);
    assert e[0..] == e;
  }

  /** One step of the patch, for a file cut at the hunk it starts with. */
  lemma {:induction false} PatchFirst(hs: seq<Hunk>, top: seq<Line>, gap: seq<Line>, run: seq<Line>,
                                      tail: seq<Line>, written: nat, after: seq<Line>)
    requires hs != []
    requires hs[0].oldStart == |top| + |gap| + 1 && hs[0].newStart == written + |gap| + 1
    requires hs[0].oldCount == |run| && hs[0].newCount == |NewSide(hs[0].lines)|
    requires run == OldSide(hs[0].lines)
    requires Patch(top + gap + run + tail, hs[1..], |top| + |gap| + |run|, written + |gap| + hs[0].newCount)
          == Some(after)
    ensures Patch(top + gap + run + tail, hs, |top|, written) == Some(gap + NewSide(hs[0].lines) + after)
  {
    var file := top + gap + run + tail;
    assert file[|top|..|top| + |gap|] == gap;
    assert file[|top| + |gap|..|top| + |gap| + |run|] == run;
  }

  // ---------------------------------------------------------------------------
  // Reversing a patch

  function Flip(e: Edit): Edit {
    match e
    case Keep(o, n, t) => Keep(n, o, t)
    case Delete(o, t) => Insert(o, t)
    case Insert(n, t) => Delete(n, t)
  }

  function FlipScript(s: seq<Edit>): (r: seq<Edit>) {
    seq(|s|, k requires 0 <= k < |s| => Flip(s[k]))
  }

  /** The hunks with the two files exchanged. */
  function FlipHunks(hs: seq<Hunk>): seq<Hunk> {
    seq(|hs|, q requires 0 <= q < |hs| =>
      Hunk(hs[q].newStart, hs[q].newCount, hs[q].oldStart, hs[q].oldCount, FlipScript(hs[q].lines)))
  }

  lemma {:induction false} FlipSides(s: seq<Edit>)
    ensures OldSide(FlipScript(s)) == NewSide(s)
    ensures NewSide(FlipScript(s)) == OldSide(s)
  {
    if s == [] {
    } else {
      FlipSides(s[..|s| - 1]);
      assert FlipScript(s)[..|s| - 1] == FlipScript(s[..|s| - 1]);
    }
  }

  lemma {:induction false} FlipCuts(e: seq<Edit>, context: nat)
    ensures Cuts(FlipScript(e), context) == Cuts(e, context)
  {
    forall k | 0 <= k < |e| ensures Cover(FlipScript(e), context)[k] == Cover(e, context)[k] {
      FlipCovered(e, context, k);
    }
    assert Cover(FlipScript(e), context) == Cover(e, context);
  }

  lemma {:induction false} FlipCovered(e: seq<Edit>, context: nat, k: int)
    ensures Covered(FlipScript(e), context, k) <==> Covered(e, context, k)
  {
    var f := FlipScript(e);
    assert forall c :: 0 <= c < |e| ==> f[c].Keep? == e[c].Keep?;
    if c :| 0 <= c < |e| && k - 1 <= c <= k + context && !e[c].Keep? {
      assert !f[c].Keep?;
    }
  }

  /** The hunks of the reversed script are the reversed hunks. */
  lemma {:induction false} FlipHunksOf(e: seq<Edit>, r: seq<Slice>)
    requires InBounds(r, |e|)
    ensures HunksOf(FlipScript(e), r) == FlipHunks(HunksOf(e, r))
  {
    forall q | 0 <= q < |r| ensures HunkOf(FlipScript(e), r[q]) == FlipHunks(HunksOf(e, r))[q] {
      var lo, hi := r[q].lo, r[q].hi;
      assert FlipScript(e)[lo..hi] == FlipScript(e[lo..hi]);
      assert FlipScript(e)[..lo] == FlipScript(e[..lo]);
      FlipSides(e[lo..hi]);
      FlipSides(e[..lo]);
    }
  }

  /** Applying the reversed hunks to the new file gives the old one back. */
  lemma {:induction false} ReversePatchApplies(e: seq<Edit>, a: seq<Line>, b: seq<Line>, context: nat)
    requires OldSide(e) == a && NewSide(e) == b
    ensures Patch(b, FlipHunks(HunksOf(e, Cuts(e, context))), 0, 0) == Some(a)
  {
    FlipSides(e);
    FlipCuts(e, context);
    FlipHunksOf(e, Cuts(e, context));
    PatchApplies(FlipScript(e), b, a, context);
  }

  // ---------------------------------------------------------------------------
  // Where hunks begin and end

  ghost predicate ShareHunk(r: seq<Slice>, p: nat, q: nat) {
    exists h :: 0 <= h < |r| && In(r[h], p) && In(r[h], q)
  }

  /** Two successive changes share a hunk exactly when at most context + 1 kept lines
      stand between them. */
  lemma {:induction false} SharedHunk(e: seq<Edit>, context: nat, p: nat, q: nat)
    requires p < q < |e| && !e[p].Keep? && !e[q].Keep?
    requires forall k :: p < k < q ==> e[k].Keep?
    ensures ShareHunk(Cuts(e, context), p, q) <==> q - p - 1 <= context + 1
  {
    var r := Cuts(e, context);
    CutsAreExact(e, context);
    if q - p - 1 <= context + 1 {
      forall k | p <= k <= q ensures Covered(e, context, k) {
        assert k - 1 <= (if k <= p + 1 then p else q) <= k + context;
      }
      CoveredRange(e, context, p, q);
    } else {
      assert !Covered(e, context, p + 2);
      assert forall h :: 0 <= h < |r| && In(r[h], p) && In(r[h], q) ==> In(r[h], p + 2);
    }
  }

  /** Positions that are all covered lie in one run. */
  lemma {:induction false} CoveredRange(e: seq<Edit>, context: nat, p: nat, q: nat)
    requires p <= q < |e|
    requires forall k :: p <= k <= q ==> Covered(e, context, k)
    ensures ShareHunk(Cuts(e, context), p, q)
  {
    var r := Cuts(e, context);
    CutsAreExact(e, context);
    assert Covered(e, context, q);
    var g :| 0 <= g < |r| && In(r[g], q);
    if p < q {
      CoveredRange(e, context, p, q - 1);
      var h :| 0 <= h < |r| && In(r[h], p) && In(r[h], q - 1);
      assert g == h;
    }
  }

  /** Each hunk opens `context` lines before its first change, or at the top of the script
      when that is nearer, and never before a hunk above it; it ends one line after its last
      change, or with the script. */
  lemma {:induction false} HunkEdges(e: seq<Edit>, context: nat, h: nat)
      returns (first: nat, last: nat)
    requires h < |Cuts(e, context)|
    ensures var r := Cuts(e, context);
      && r[h].lo <= first <= last < r[h].hi && !e[first].Keep? && !e[last].Keep?
      && (forall k :: r[h].lo <= k < first || last < k < r[h].hi ==> e[k].Keep?)
      && first - r[h].lo == (if first < context then first else context)
      && (h > 0 ==> first - r[h].lo == context)
      && r[h].hi == (if last + 2 <= |e| then last + 2 else |e|)
  {
    var r := Cuts(e, context);
    var lo, hi := r[h].lo, r[h].hi;
    RunIsMaximal(e, context, h);
    var c :| 0 <= c < |e| && lo - 1 <= c <= lo + context && !e[c].Keep?;
    assert c != lo - 1;
    first := FirstChange(e, lo, c);
    assert lo > 0 ==> first >= lo + context;
    var d :| 0 <= d < |e| && hi - 2 <= d <= hi - 1 + context && !e[d].Keep?;
    assert hi < |e| ==> d == hi - 2;
    assert d >= lo;
    assert first < hi;
    last := LastChange(e, if d < hi then d else first, hi);
  }

  /** Neither neighbour of a run is covered. */
  lemma {:induction false} RunIsMaximal(e: seq<Edit>, context: nat, h: nat)
    requires h < |Cuts(e, context)|
    ensures var s := Cuts(e, context)[h];
      && Covered(e, context, s.lo) && Covered(e, context, s.hi - 1)
      && (s.lo > 0 ==> !Covered(e, context, s.lo - 1))
      && (s.hi < |e| ==> !Covered(e, context, s.hi))
      && (h > 0 ==> s.lo > 0)
  {
    var r := Cuts(e, context);
    CutsAreExact(e, context);
    assert In(r[h], r[h].lo) && In(r[h], r[h].hi - 1);
    assert h > 0 ==> r[0].hi < r[h].lo;
  }

  lemma FirstChange(e: seq<Edit>, lo: nat, c: nat) returns (first: nat)
    requires lo <= c < |e| && !e[c].Keep?
    ensures lo <= first <= c && !e[first].Keep?
    ensures forall k :: lo <= k < first ==> e[k].Keep?
  {
    first := lo;
    while e[first].Keep?
      decreases c - first
      invariant lo <= first <= c
      invariant forall k :: lo <= k < first ==> e[k].Keep?
    {
      first := first + 1;
    }
  }

  lemma LastChange(e: seq<Edit>, c: nat, hi: nat) returns (last: nat)
    requires c < hi <= |e| && !e[c].Keep?
    ensures c <= last < hi && !e[last].Keep?
    ensures forall k :: last < k < hi ==> e[k].Keep?
  {
    last := hi - 1;
    while e[last].Keep?
      decreases last - c
      invariant c <= last < hi
      invariant forall k :: last < k < hi ==> e[k].Keep?
    {
      last := last - 1;
    }
  }
}
