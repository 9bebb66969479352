/** The line diff of rom/bin/diff.ts. */
module Diff {
  // The LCS table, the backward walk that turns it into an edit script, and the proof that no
  // script turns the old file into the new one with fewer changes.

  type Line = string

  /** An edit and the zero-based line numbers it carries.  They are integers, not
      naturals: the hunk builder computes them by subtraction. */
  datatype Edit =
    | Keep(oldLine: int, newLine: int, text: Line)
    | Delete(oldLine: int, text: Line)
    | Insert(newLine: int, text: Line)

  // ---------------------------------------------------------------------------
  // What a script means

  /** The old file a script reads: its kept and deleted lines. */
  function OldSide(s: seq<Edit>): seq<Line> {
    if s == [] then []
    else OldSide(s[..|s| - 1]) + (if s[|s| - 1].Insert? then [] else [s[|s| - 1].text])
  }

  /** The new file a script writes: its kept and inserted lines. */
  function NewSide(s: seq<Edit>): seq<Line> {
    if s == [] then []
    else NewSide(s[..|s| - 1]) + (if s[|s| - 1].Delete? then [] else [s[|s| - 1].text])
  }

  /** The kept lines of a script. */
  function Kept(s: seq<Edit>): seq<Line> {
    if s == [] then []
    else Kept(s[..|s| - 1]) + (if s[|s| - 1].Keep? then [s[|s| - 1].text] else [])
  }

  /** The number of deletes and inserts. */
  function Changes(s: seq<Edit>): nat {
    if s == [] then 0
    else Changes(s[..|s| - 1]) + (if s[|s| - 1].Keep? then 0 else 1)
  }

  /** Every edit carries the line numbers of the position it stands at. */
  ghost predicate Numbered(s: seq<Edit>) {
    forall k :: 0 <= k < |s| ==>
      && (!s[k].Insert? ==> s[k].oldLine == |OldSide(s[..k])|)
      && (!s[k].Delete? ==> s[k].newLine == |NewSide(s[..k])|)
  }

  /** s is an edit script from a to b. */
  ghost predicate IsScript(s: seq<Edit>, a: seq<Line>, b: seq<Line>) {
    OldSide(s) == a && NewSide(s) == b && Numbered(s)
  }

  // ---------------------------------------------------------------------------
  // Common subsequences, defined without the table

  /** f picks the elements of s, in order, out of the first n elements of a. */
  ghost predicate Embeds(f: seq<nat>, s: seq<Line>, a: seq<Line>, n: nat) {
    && |f| == |s| && n <= |a|
    && (forall k :: 0 <= k < |f| ==> f[k] < n && a[f[k]] == s[k])
    && (forall j, k :: 0 <= j < k < |f| ==> f[j] < f[k])
  }

  ghost predicate IsCommonSubsequence(s: seq<Line>, a: seq<Line>, b: seq<Line>) {
    (exists f :: Embeds(f, s, a, |a|)) && (exists g :: Embeds(g, s, b, |b|))
  }

  // ---------------------------------------------------------------------------
  // The table and the walk, as functions

  /** Entry (i, j) of the table. */
  function Lcs(a: seq<Line>, b: seq<Line>, i: nat, j: nat): nat
    requires i <= |a| && j <= |b|
  {
    if i == 0 || j == 0 then 0
    else if a[i - 1] == b[j - 1] then Lcs(a, b, i - 1, j - 1) + 1
    else Max(Lcs(a, b, i - 1, j), Lcs(a, b, i, j - 1))
  }

  function Max(x: nat, y: nat): nat { if x < y then y else x }

  /** The edit the walk takes at (i, j). */
  function Pick(a: seq<Line>, b: seq<Line>, i: nat, j: nat): (e: Edit)
    requires i <= |a| && j <= |b| && (i > 0 || j > 0)
    ensures (!e.Insert? ==> i > 0) && (!e.Delete? ==> j > 0)
  {
    if i > 0 && j > 0 && a[i - 1] == b[j - 1] then Keep(i - 1, j - 1, a[i - 1])
    else if j > 0 && (i == 0 || Lcs(a, b, i, j - 1) >= Lcs(a, b, i - 1, j)) then Insert(j - 1, b[j - 1])
    else Delete(i - 1, a[i - 1])
  }

  /** The script the walk has found once it has come from (i, j) to (0, 0). */
  function Script(a: seq<Line>, b: seq<Line>, i: nat, j: nat): seq<Edit>
    requires i <= |a| && j <= |b|
  {
    if i == 0 && j == 0 then []
    else
      var e := Pick(a, b, i, j);
      Script(a, b, if e.Insert? then i else i - 1, if e.Delete? then j else j - 1) + [e]
  }

  ghost predicate RowFilled(lcs: array2<nat>, a: seq<Line>, b: seq<Line>, i: nat)
    requires lcs.Length0 == |a| + 1 && lcs.Length1 == |b| + 1 && i <= |a|
    reads lcs
  {
    forall q :: 0 <= q <= |b| ==> lcs[i, q] == Lcs(a, b, i, q)
  }

  /** One turn of the outer loop: row i from row i - 1. */
  method FillRow(lcs: array2<nat>, oldLines: seq<Line>, newLines: seq<Line>, i: nat)
    requires lcs.Length0 == |oldLines| + 1 && lcs.Length1 == |newLines| + 1 && 0 < i <= |oldLines|
    requires RowFilled(lcs, oldLines, newLines, i - 1) && lcs[i, 0] == 0
    modifies lcs
    ensures RowFilled(lcs, oldLines, newLines, i)
    ensures forall p, q :: 0 <= p < lcs.Length0 && 0 <= q < lcs.Length1 && p != i ==> lcs[p, q] == old(lcs[p, q])
  {
    for j := 1 to |newLines| + 1
      invariant forall p, q :: 0 <= p < lcs.Length0 && 0 <= q < lcs.Length1 && p != i ==> lcs[p, q] == old(lcs[p, q])
      invariant forall q :: 0 <= q < j ==> lcs[i, q] == Lcs(oldLines, newLines, i, q)
    {
      assert lcs[i - 1, j] == Lcs(oldLines, newLines, i - 1, j);
      assert lcs[i - 1, j - 1] == Lcs(oldLines, newLines, i - 1, j - 1);
      if oldLines[i - 1] == newLines[j - 1] {
        lcs[i, j] := lcs[i - 1, j - 1] + 1;
      } else {
        lcs[i, j] := Max(lcs[i - 1, j], lcs[i, j - 1]);
      }
    }
  }

  /** The table computeDiff starts with, filled row by row. */
  method FillTable(oldLines: seq<Line>, newLines: seq<Line>) returns (lcs: array2<nat>)
    ensures fresh(lcs) && lcs.Length0 == |oldLines| + 1 && lcs.Length1 == |newLines| + 1
    ensures forall p :: 0 <= p <= |oldLines| ==> RowFilled(lcs, oldLines, newLines, p)
  {
    var m, n := |oldLines|, |newLines|;
    lcs := new nat[m + 1, n + 1]((i, j) => 0);
    for i := 1 to m + 1
      invariant forall p :: 0 <= p < i ==> RowFilled(lcs, oldLines, newLines, p)
      invariant forall p :: i <= p <= m ==> lcs[p, 0] == 0
    {
      label Before:
      FillRow(lcs, oldLines, newLines, i);
      forall p | 0 <= p < i ensures RowFilled(lcs, oldLines, newLines, p) {
        assert old@Before(RowFilled(lcs, oldLines, newLines, p));
      }
    }
  }

  /** computeDiff: fills the table, then walks it backwards from its last entry, putting
      each edit in front of the ones found so far. */
  method ComputeDiff(oldLines: seq<Line>, newLines: seq<Line>) returns (edits: seq<Edit>)
    ensures IsScript(edits, oldLines, newLines)
    ensures forall s :: IsScript(s, oldLines, newLines) ==> Changes(edits) <= Changes(s)
    ensures DeletesFirst(edits)
    ensures edits == Script(oldLines, newLines, |oldLines|, |newLines|)
  {
    var m, n := |oldLines|, |newLines|;
    var lcs := FillTable(oldLines, newLines);
    edits := [];
    var i, j := m, n;
    while i > 0 || j > 0
      invariant 0 <= i <= m && 0 <= j <= n
      invariant Script(oldLines, newLines, m, n) == Script(oldLines, newLines, i, j) + edits
      decreases i + j
    {
      if i > 0 && j > 0 && oldLines[i - 1] == newLines[j - 1] {
        edits := [Keep(i - 1, j - 1, oldLines[i - 1])] + edits;
        i, j := i - 1, j - 1;
      } else if j > 0 && (i == 0 || lcs[i, j - 1] >= lcs[i - 1, j]) {
        assert i > 0 ==> RowFilled(lcs, oldLines, newLines, i) && RowFilled(lcs, oldLines, newLines, i - 1);
        edits := [Insert(j - 1, newLines[j - 1])] + edits;
        j := j - 1;
      } else if i > 0 {
        assert RowFilled(lcs, oldLines, newLines, i) && RowFilled(lcs, oldLines, newLines, i - 1);
        edits := [Delete(i - 1, oldLines[i - 1])] + edits;
        i := i - 1;
      }
    }
    ScriptIsBest(oldLines, newLines);
    assert edits == Script(oldLines, newLines, m, n);
  }

  // ---------------------------------------------------------------------------
  // The walk spells both files

  lemma {:induction false} SidesSnoc(s: seq<Edit>, e: Edit)
    ensures OldSide(s + [e]) == OldSide(s) + (if e.Insert? then [] else [e.text])
    ensures NewSide(s + [e]) == NewSide(s) + (if e.Delete? then [] else [e.text])
    ensures Kept(s + [e]) == Kept(s) + (if e.Keep? then [e.text] else [])
    ensures Changes(s + [e]) == Changes(s) + (if e.Keep? then 0 else 1)
  {
    assert (s + [e])[..|s + [e]| - 1] == s;
  }

  lemma {:induction false} NumberedSnoc(s: seq<Edit>, e: Edit)
    requires Numbered(s)
    requires !e.Insert? ==> e.oldLine == |OldSide(s)|
    requires !e.Delete? ==> e.newLine == |NewSide(s)|
    ensures Numbered(s + [e])
  {
    var t := s + [e];
    forall k | 0 <= k < |t|
      ensures !t[k].Insert? ==> t[k].oldLine == |OldSide(t[..k])|
      ensures !t[k].Delete? ==> t[k].newLine == |NewSide(t[..k])|
    {
      assert t[..k] == s[..k];
      assert s[..|s|] == s;
    }
  }

  lemma ScriptSnoc(a: seq<Line>, b: seq<Line>, i: nat, j: nat)
      returns (t: seq<Edit>, e: Edit, i': nat, j': nat)
    requires i <= |a| && j <= |b| && (i > 0 || j > 0)
    ensures e == Pick(a, b, i, j)
    ensures i' == (if e.Insert? then i else i - 1) && j' == (if e.Delete? then j else j - 1)
    ensures e == if e.Keep? then Keep(i', j', a[i']) else if e.Delete? then Delete(i', a[i']) else Insert(j', b[j'])
    ensures t == Script(a, b, i', j') && Script(a, b, i, j) == t + [e]
    ensures a[..i] == a[..i'] + (if e.Insert? then [] else [e.text])
    ensures b[..j] == b[..j'] + (if e.Delete? then [] else [e.text])
  {
    e := Pick(a, b, i, j);
    i', j' := if e.Insert? then i else i - 1, if e.Delete? then j else j - 1;
    t := Script(a, b, i', j');
  }

  lemma {:induction false} ScriptSides(a: seq<Line>, b: seq<Line>, i: nat, j: nat)
    requires i <= |a| && j <= |b|
    ensures OldSide(Script(a, b, i, j)) == a[..i]
    ensures NewSide(Script(a, b, i, j)) == b[..j]
  {
    if i == 0 && j == 0 {
    } else {
      var t, e, i', j' := ScriptSnoc(a, b, i, j);
      ScriptSides(a, b, i', j');
      SidesSnoc(t, e);
    }
  }

  /** The walk keeps as many lines as its table entry says. */
  lemma {:induction false} ScriptKeepsLcs(a: seq<Line>, b: seq<Line>, i: nat, j: nat)
    requires i <= |a| && j <= |b|
    ensures |Kept(Script(a, b, i, j))| == Lcs(a, b, i, j)
  {
    if i == 0 && j == 0 {
    } else {
      var t, e, i', j' := ScriptSnoc(a, b, i, j);
      ScriptKeepsLcs(a, b, i', j');
      SidesSnoc(t, e);
    }
  }

  lemma {:induction false} ScriptNumbered(a: seq<Line>, b: seq<Line>, i: nat, j: nat)
    requires i <= |a| && j <= |b|
    ensures Numbered(Script(a, b, i, j))
  {
    if i == 0 && j == 0 {
    } else {
      var t, e, i', j' := ScriptSnoc(a, b, i, j);
      ScriptNumbered(a, b, i', j');
      ScriptSides(a, b, i', j');
      NumberedSnoc(t, e);
    }
  }

  // ---------------------------------------------------------------------------
  // The table entry is the length of a longest common subsequence

  /** No common subsequence of two prefixes is longer than the table entry. */
  lemma {:induction false} LcsBounds(a: seq<Line>, b: seq<Line>, i: nat, j: nat,
                                     s: seq<Line>, f: seq<nat>, g: seq<nat>)
    requires i <= |a| && j <= |b|
    requires Embeds(f, s, a, i) && Embeds(g, s, b, j)
    ensures |s| <= Lcs(a, b, i, j)
    decreases i + j
  {
    if s == [] {
    } else {
      var l := |s| - 1;
      assert f[l] < i && g[l] < j && a[f[l]] == b[g[l]];
      if a[i - 1] == b[j - 1] {
        LcsBounds(a, b, i - 1, j - 1, s[..l], f[..l], g[..l]);
      } else if f[l] < i - 1 {
        LcsBounds(a, b, i - 1, j, s, f, g);
      } else {
        LcsBounds(a, b, i, j - 1, s, f, g);
      }
    }
  }

  /** The lines a script keeps are a subsequence of each file it joins. */
  lemma {:induction false} KeptIsCommon(s: seq<Edit>) returns (f: seq<nat>, g: seq<nat>)
    ensures Embeds(f, Kept(s), OldSide(s), |OldSide(s)|)
    ensures Embeds(g, Kept(s), NewSide(s), |NewSide(s)|)
  {
    if s == [] {
      f, g := [], [];
    } else {
      f, g := KeptIsCommon(s[..|s| - 1]);
      if s[|s| - 1].Keep? {
        f, g := f + [|OldSide(s[..|s| - 1])|], g + [|NewSide(s[..|s| - 1])|];
      }
    }
  }

  /** The last table entry is attained by a common subsequence and exceeded by none. */
  lemma {:induction false} LcsIsLongest(a: seq<Line>, b: seq<Line>)
    ensures exists s :: IsCommonSubsequence(s, a, b) && |s| == Lcs(a, b, |a|, |b|)
    ensures forall s :: IsCommonSubsequence(s, a, b) ==> |s| <= Lcs(a, b, |a|, |b|)
  {
    var t := Script(a, b, |a|, |b|);
    ScriptSides(a, b, |a|, |b|);
    ScriptKeepsLcs(a, b, |a|, |b|);
    assert a[..|a|] == a && b[..|b|] == b;
    var f, g := KeptIsCommon(t);
    assert IsCommonSubsequence(Kept(t), a, b);
    forall s | IsCommonSubsequence(s, a, b) ensures |s| <= Lcs(a, b, |a|, |b|) {
      var f :| Embeds(f, s, a, |a|);
      var g :| Embeds(g, s, b, |b|);
      LcsBounds(a, b, |a|, |b|, s, f, g);
    }
  }

  // ---------------------------------------------------------------------------
  // No script is shorter

  lemma {:induction false} ChangesCount(s: seq<Edit>)
    ensures Changes(s) + 2 * |Kept(s)| == |OldSide(s)| + |NewSide(s)|
  {
    if s == [] {
    } else {
      ChangesCount(s[..|s| - 1]);
    }
  }

  /** Every script between two files, numbered or not, has at least as many changes as
      the one the walk finds. */
  lemma {:induction false} ScriptIsShortest(a: seq<Line>, b: seq<Line>, s: seq<Edit>)
    requires OldSide(s) == a && NewSide(s) == b
    ensures Changes(Script(a, b, |a|, |b|)) <= Changes(s)
  {
    var t := Script(a, b, |a|, |b|);
    ScriptSides(a, b, |a|, |b|);
    ScriptKeepsLcs(a, b, |a|, |b|);
    assert a[..|a|] == a && b[..|b|] == b;
    var f, g := KeptIsCommon(s);
    LcsBounds(a, b, |a|, |b|, Kept(s), f, g);
    ChangesCount(s);
    ChangesCount(t);
  }

  // ---------------------------------------------------------------------------
  // The tie rule: within a run of changes the deletions come first

  /** No inserted line is directly followed by a deleted one. */
  ghost predicate DeletesFirst(s: seq<Edit>) {
    forall k :: 0 < k < |s| && s[k].Delete? ==> !s[k - 1].Insert?
  }

  lemma {:induction false} LcsMonotone(a: seq<Line>, b: seq<Line>, i: nat, j: nat)
    requires 0 < i <= |a| && j <= |b|
    ensures Lcs(a, b, i - 1, j) <= Lcs(a, b, i, j) <= Lcs(a, b, i - 1, j) + 1
    ensures j > 0 ==> Lcs(a, b, i, j - 1) <= Lcs(a, b, i, j) <= Lcs(a, b, i, j - 1) + 1
    decreases i + j
  {
    if j > 0 {
      LcsMonotone(a, b, i, j - 1);
      if i > 1 {
        LcsMonotone(a, b, i - 1, j);
      }
    }
  }

  lemma {:induction false} ScriptDeletesFirst(a: seq<Line>, b: seq<Line>, i: nat, j: nat)
    requires i <= |a| && j <= |b|
    ensures DeletesFirst(Script(a, b, i, j))
  {
    if i == 0 && j == 0 {
    } else {
      var t, e, i', j' := ScriptSnoc(a, b, i, j);
      ScriptDeletesFirst(a, b, i', j');
      if e.Delete? && |t| > 0 && t[|t| - 1].Insert? {
        // An insert taken at (i - 1, j) means the entry left of it is as large, which
        // the delete taken at (i, j) has just denied.
        LcsMonotone(a, b, i, j - 1);
        assert false;
      }
    }
  }

  lemma ScriptIsBest(a: seq<Line>, b: seq<Line>)
    ensures var t := Script(a, b, |a|, |b|);
      && IsScript(t, a, b) && DeletesFirst(t)
      && forall s :: IsScript(s, a, b) ==> Changes(t) <= Changes(s)
  {
    ScriptSides(a, b, |a|, |b|);
    ScriptNumbered(a, b, |a|, |b|);
    ScriptDeletesFirst(a, b, |a|, |b|);
    assert a[..|a|] == a && b[..|b|] == b;
    forall s | IsScript(s, a, b) ensures Changes(Script(a, b, |a|, |b|)) <= Changes(s) {
      ScriptIsShortest(a, b, s);
    }
  }
}
