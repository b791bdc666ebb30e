/** Blame information of one file while commits are replayed (programs/git-import/git-import.cpp): a list of
    commits, one per line, walked by a cursor, and the update of that list by the hunks of a diff. */
module FileBlame {
  import opened Arith
  import opened Wrappers

  datatype Commit = Commit(hash: string, author: string, time: nat)

  const EMPTY := Commit("", "", 0)

  // --- the list as a plain sequence; lines are numbered from one --------------------------------------------

  function LineAt(lines: seq<Commit>, num: nat): Option<Commit>
    requires 1 <= num
  {
    if num <= |lines| then Some(lines[num - 1]) else None
  }

  function Padding(n: nat): (r: seq<Commit>)
    ensures |r| == n && forall i :: 0 <= i < n ==> r[i] == EMPTY
  {
    if n == 0 then [] else Padding(n - 1) + [EMPTY]
  }

  /** A line inserted before line num; a file that is too short is padded first. */
  function Added(lines: seq<Commit>, num: nat, commit: Commit): seq<Commit>
    requires 1 <= num
  {
    if num - 1 <= |lines| then lines[..num - 1] + [commit] + lines[num - 1..]
    else lines + Padding(num - 1 - |lines|) + [commit]
  }

  function Removed(lines: seq<Commit>, num: nat): seq<Commit>
    requires 1 <= num
  {
    if num <= |lines| then lines[..num - 1] + lines[num..] else lines
  }

  lemma AddedLines(lines: seq<Commit>, num: nat, commit: Commit)
    requires 1 <= num
    ensures var r := Added(lines, num, commit);
            && |r| == Max(|lines|, num - 1) + 1 && r[num - 1] == commit
            && (forall i :: 0 <= i < num - 1 ==> r[i] == if i < |lines| then lines[i] else Commit("", "", 0))
            && (forall i :: num - 1 <= i < |lines| ==> r[i + 1] == lines[i])
  {
  }

  /** The list with its cursor.  `it` is the position of the iterator, |lines| being end(). */
  class Blame {
    var lines: seq<Commit>
    var it: nat
    var currentIdx: nat

    ghost predicate Valid()
      reads this
    {
      it <= |lines| && currentIdx == it + 1
    }

    constructor ()
      ensures Valid() && lines == []
    {
      lines, it, currentIdx := [], 0, 1;
    }

    /** operator=: the cursor starts over. */
    method Assign(rhs: Blame)
      requires Valid() && rhs.Valid()
      modifies this
      ensures Valid() && lines == old(rhs.lines)
    {
      if rhs == this {
        return;
      }
      lines := rhs.lines;
      it := 0;
      currentIdx := 1;
    }

    method Walk(num: nat)
      requires Valid() && 1 <= num
      modifies `it, `currentIdx
      ensures Valid() && it == if num - 1 <= |lines| then num - 1 else |lines|
    {
      while currentIdx < num && it != |lines|
        invariant Valid() && (it == old(it) || currentIdx <= num)
      {
        currentIdx := currentIdx + 1;
        it := it + 1;
      }
      while currentIdx > num
        invariant Valid() && (currentIdx >= num || it == |lines|)
      {
        currentIdx := currentIdx - 1;
        it := it - 1;
      }
    }

    method Find(num: nat) returns (r: Option<Commit>)
      requires Valid() && 1 <= num
      modifies `it, `currentIdx
      ensures Valid() && r == LineAt(lines, num)
      ensures if num <= |lines| then r == Some(lines[num - 1]) else r == None
    {
      Walk(num);
      if currentIdx == num && it != |lines| {
        return Some(lines[it]);
      }
      return None;
    }

    method AddLine(num: nat, commit: Commit)
      requires Valid() && 1 <= num
      modifies this
      ensures Valid() && lines == Added(old(lines), num, commit)
      // the line is there, the lines before it are as before or empty, the later ones move up by one
      ensures |lines| == Max(|old(lines)|, num - 1) + 1 && lines[num - 1] == commit
      ensures forall i :: 0 <= i < num - 1 ==>
                lines[i] == if i < |old(lines)| then old(lines)[i] else Commit("", "", 0)
      ensures forall i :: num - 1 <= i < |old(lines)| ==> lines[i + 1] == old(lines)[i]
    {
      AddedLines(lines, num, commit);
      Walk(num);
      ghost var before := lines;
      while it == |lines| && currentIdx < num
        invariant Valid() && |before| <= |lines| && lines == before + Padding(|lines| - |before|)
        invariant it == |lines| || currentIdx == num
        invariant currentIdx <= num
        invariant |before| < |lines| ==> it == |lines|
      {
        lines := lines + [EMPTY];
        it := |lines|; // end() stays the end
        currentIdx := currentIdx + 1;
      }
      if num - 1 <= |before| {
        assert lines == before;
      } else {
        assert |lines| == num - 1 == it && lines[..it] == lines && lines[it..] == [];
      }
      lines := lines[..it] + [commit] + lines[it..];
    }

    method RemoveLine(num: nat)
      requires Valid() && 1 <= num
      modifies this
      ensures Valid() && lines == Removed(old(lines), num)
      ensures |lines| == |old(lines)| - (if num <= |old(lines)| then 1 else 0)
      ensures forall i :: 0 <= i < |lines| ==> lines[i] == old(lines)[if i < num - 1 then i else i + 1]
    {
      Walk(num);
      if currentIdx == num && it != |lines| {
        lines := lines[..it] + lines[it + 1..];
      }
    }
  }

  // --- hunks ------------------------------------------------------------------------------------------------

  /** A hunk of a diff without context: behind the first `at` lines of the old file, `deleted` lines are
      replaced by `added` new ones. */
  datatype Edit = Edit(at: nat, deleted: nat, added: nat)

  /** Hunks in order, inside a file of n lines, with an unchanged line between neighbours. */
  ghost predicate Script(edits: seq<Edit>, low: nat, n: nat) {
    edits == [] ||
    (low <= edits[0].at && edits[0].at + edits[0].deleted <= n
     && Script(edits[1..], edits[0].at + edits[0].deleted + 1, n))
  }

  datatype LineChange = LineChange(
    sign: int, lineNumberOld: nat, lineNumberNew: nat, hunkStartOld: nat, hunkStartNew: nat)

  /** The number after the minus sign of a hunk header: a hunk that deletes nothing names the line before. */
  function StartOld(e: Edit): nat { if e.deleted > 0 then e.at + 1 else e.at }

  /** The number after the plus sign, where zero is replaced by one; c is how many new lines go before. */
  function StartNew(e: Edit, c: nat): (r: nat)
    ensures 1 <= r
  {
    var start := if e.added > 0 then c + 1 else c;
    if start == 0 then 1 else start
  }

  /** The deletions of a hunk, all at one new line number. */
  function Deletions(e: Edit, c: nat, i: nat): (r: seq<LineChange>)
    requires i <= e.deleted
    ensures Numbered(r)
    decreases e.deleted - i
  {
    if i == e.deleted then []
    else [LineChange(-1, StartOld(e) + i, StartNew(e, c), StartOld(e), StartNew(e, c))] + Deletions(e, c, i + 1)
  }

  /** The additions of a hunk, at consecutive new line numbers. */
  function Additions(e: Edit, c: nat, j: nat): (r: seq<LineChange>)
    requires j <= e.added
    ensures Numbered(r)
    decreases e.added - j
  {
    if j == e.added then []
    else
      [LineChange(1, StartOld(e) + e.deleted, StartNew(e, c) + j, StartOld(e), StartNew(e, c))]
      + Additions(e, c, j + 1)
  }

  // --- reading a hunk ---------------------------------------------------------------------------------------

  /** The four numbers of a hunk header. */
  datatype Header = Header(oldStart: nat, oldLines: nat, newStart: nat, newLines: nat)

  /** What a diff without context prints for an edit with c new lines before it: a side without lines names the
      line before the hunk, the other side its first line. */
  function HeaderOf(e: Edit, c: nat): Header {
    Header(if e.deleted == 0 then e.at else e.at + 1, e.deleted, if e.added == 0 then c else c + 1, e.added)
  }

  /** processDiffs on one hunk: the header, then its deleted lines, then its added lines. */
  method ReadHunk(h: Header) returns (changes: seq<LineChange>)
    ensures |changes| == h.oldLines + h.newLines
    ensures var first := if h.newStart == 0 then 1 else h.newStart;
            && (forall i :: 0 <= i < h.oldLines ==>
                  changes[i] == LineChange(-1, h.oldStart + i, first, h.oldStart, first))
            && (forall k :: h.oldLines <= k < |changes| ==>
                  changes[k] == LineChange(1, h.oldStart + h.oldLines, first + k - h.oldLines, h.oldStart, first))
  {
    var hunkStartNew := h.newStart;
    if hunkStartNew == 0 {
      hunkStartNew := 1;
    }
    var lineNumberOld, lineNumberNew := h.oldStart, hunkStartNew;
    changes := [];
    var i := 0;
    while i < h.oldLines
      invariant 0 <= i <= h.oldLines && |changes| == i && lineNumberOld == h.oldStart + i
      invariant forall k :: 0 <= k < i ==>
                  changes[k] == LineChange(-1, h.oldStart + k, hunkStartNew, h.oldStart, hunkStartNew)
    {
      changes := changes + [LineChange(-1, lineNumberOld, lineNumberNew, h.oldStart, hunkStartNew)];
      lineNumberOld := lineNumberOld + 1;
      i := i + 1;
    }
    ghost var deletions := changes;
    var j := 0;
    while j < h.newLines
      invariant 0 <= j <= h.newLines && |changes| == h.oldLines + j && lineNumberNew == hunkStartNew + j
      invariant changes[..h.oldLines] == deletions
      invariant forall k :: h.oldLines <= k < |changes| ==>
                  changes[k] == LineChange(1, h.oldStart + h.oldLines, hunkStartNew + k - h.oldLines, h.oldStart,
                                           hunkStartNew)
    {
      changes := changes + [LineChange(1, lineNumberOld, lineNumberNew, h.oldStart, hunkStartNew)];
      lineNumberNew := lineNumberNew + 1;
      j := j + 1;
    }
    assert forall k :: 0 <= k < h.oldLines ==> changes[k] == changes[..h.oldLines][k];
  }

  lemma {:induction false} DeletionAt(e: Edit, c: nat, i: nat, k: nat)
    requires i + k < e.deleted
    ensures |Deletions(e, c, i)| == e.deleted - i
    ensures Deletions(e, c, i)[k] == LineChange(-1, StartOld(e) + i + k, StartNew(e, c), StartOld(e), StartNew(e, c))
    decreases e.deleted - i
  {
    if i + 1 < e.deleted {
      DeletionAt(e, c, i + 1, if k == 0 then 0 else k - 1);
    }
  }

  lemma {:induction false} AdditionAt(e: Edit, c: nat, j: nat, k: nat)
    requires j + k < e.added
    ensures |Additions(e, c, j)| == e.added - j
    ensures Additions(e, c, j)[k]
         == LineChange(1, StartOld(e) + e.deleted, StartNew(e, c) + j + k, StartOld(e), StartNew(e, c))
    decreases e.added - j
  {
    if j + 1 < e.added {
      AdditionAt(e, c, j + 1, if k == 0 then 0 else k - 1);
    }
  }

  /** Reading the hunk of an edit numbers its lines as Deletions and Additions do. */
  method ReadEdit(e: Edit, c: nat) returns (changes: seq<LineChange>)
    ensures changes == Deletions(e, c, 0) + Additions(e, c, 0)
  {
    changes := ReadHunk(HeaderOf(e, c));
    HunkSizes(e, c);
    forall i: nat | i < e.deleted ensures changes[i] == Deletions(e, c, 0)[i] { DeletionAt(e, c, 0, i); }
    forall k: nat | e.deleted <= k < |changes| ensures changes[k] == Additions(e, c, 0)[k - e.deleted] {
      AdditionAt(e, c, 0, k - e.deleted);
    }
    assert changes[..e.deleted] == Deletions(e, c, 0) && changes[e.deleted..] == Additions(e, c, 0);
  }

  lemma HunkSizes(e: Edit, c: nat)
    ensures |Deletions(e, c, 0)| == e.deleted && |Additions(e, c, 0)| == e.added
  {
    if e.deleted > 0 {
      DeletionAt(e, c, 0, 0);
    }
    if e.added > 0 {
      AdditionAt(e, c, 0, 0);
    }
  }

  predicate Numbered(changes: seq<LineChange>) {
    forall i :: 0 <= i < |changes| ==> 1 <= changes[i].lineNumberNew
  }

  /** The line changes of a whole diff; `shift` is how many more lines the new file has so far. */
  function Changes(edits: seq<Edit>, shift: int): (r: seq<LineChange>)
    ensures Numbered(r)
  {
    if edits == [] then []
    else
      var e := edits[0];
      var c := if 0 <= e.at + shift then e.at + shift else 0;
      Deletions(e, c, 0) + Additions(e, c, 0) + Changes(edits[1..], shift + e.added - e.deleted)
  }

  // --- the update -------------------------------------------------------------------------------------------

  function Changed(lines: seq<Commit>, change: LineChange, commit: Commit): seq<Commit>
    requires 1 <= change.lineNumberNew
  {
    if change.sign == -1 then Removed(lines, change.lineNumberNew)
    else if change.sign == 1 then Added(lines, change.lineNumberNew, commit)
    else lines
  }

  function Updated(lines: seq<Commit>, changes: seq<LineChange>, commit: Commit): seq<Commit>
    requires Numbered(changes)
    decreases |changes|
  {
    if changes == [] then lines else Updated(Changed(lines, changes[0], commit), changes[1..], commit)
  }

  /** The loop that updates the snapshot of a file. */
  method UpdateLines(blame: Blame, changes: seq<LineChange>, commit: Commit)
    requires blame.Valid() && Numbered(changes)
    modifies blame
    ensures blame.Valid() && blame.lines == Updated(old(blame.lines), changes, commit)
  {
    hide Added, Removed;
    var i := 0;
    while i < |changes|
      invariant 0 <= i <= |changes| && blame.Valid()
      invariant Updated(blame.lines, changes[i..], commit) == Updated(old(blame.lines), changes, commit)
    {
      if changes[i].sign == -1 {
        blame.RemoveLine(changes[i].lineNumberNew);
      } else if changes[i].sign == 1 {
        blame.AddLine(changes[i].lineNumberNew, commit);
      }
      assert changes[i..][1..] == changes[i + 1..];
      i := i + 1;
    }
  }

  function Copies(commit: Commit, n: nat): (r: seq<Commit>)
    ensures |r| == n && forall i :: 0 <= i < n ==> r[i] == commit
  {
    if n == 0 then [] else [commit] + Copies(commit, n - 1)
  }

  /** What a commit should leave behind: the old lines without the deleted ones, the added lines its own. */
  function Patched(old_: seq<Commit>, edits: seq<Edit>, from: nat, commit: Commit): seq<Commit>
    requires from <= |old_| && Script(edits, from, |old_|)
    decreases |edits|
  {
    if edits == [] then old_[from..]
    else
      var e := edits[0];
      ScriptFrom(edits, from, |old_|);
      old_[from..e.at] + Copies(commit, e.added) + Patched(old_, edits[1..], e.at + e.deleted, commit)
  }

  lemma ScriptFrom(edits: seq<Edit>, low: nat, n: nat)
    requires edits != [] && Script(edits, low, n)
    ensures Script(edits[1..], edits[0].at + edits[0].deleted, n)
  {
  }

  lemma {:induction false} UpdatedConcat(lines: seq<Commit>, a: seq<LineChange>, b: seq<LineChange>, commit: Commit)
    requires Numbered(a) && Numbered(b)
    ensures Updated(lines, a + b, commit) == Updated(Updated(lines, a, commit), b, commit)
    decreases |a|
  {
    if a == [] {
      assert a + b == b;
    } else {
      assert (a + b)[1..] == a[1..] + b;
      UpdatedConcat(Changed(lines, a[0], commit), a[1..], b, commit);
    }
  }

  lemma {:induction false} DeletionsUpdate(lines: seq<Commit>, e: Edit, c: nat, i: nat, commit: Commit)
    requires i <= e.deleted && StartNew(e, c) - 1 + (e.deleted - i) <= |lines|
    ensures Updated(lines, Deletions(e, c, i), commit)
         == lines[..StartNew(e, c) - 1] + lines[StartNew(e, c) - 1 + (e.deleted - i)..]
    decreases e.deleted - i
  {
    var s := StartNew(e, c) - 1;
    if i < e.deleted {
      var next := lines[..s] + lines[s + 1..];
      assert Changed(lines, Deletions(e, c, i)[0], commit) == next;
      assert Deletions(e, c, i)[1..] == Deletions(e, c, i + 1);
      DeletionsUpdate(next, e, c, i + 1, commit);
      assert next[..s] == lines[..s];
      assert next[s + (e.deleted - i - 1)..] == lines[s + (e.deleted - i)..];
    }
  }

  lemma {:induction false} AdditionsUpdate(lines: seq<Commit>, e: Edit, c: nat, j: nat, commit: Commit)
    requires j <= e.added && StartNew(e, c) - 1 + j <= |lines|
    ensures Updated(lines, Additions(e, c, j), commit)
         == lines[..StartNew(e, c) - 1 + j] + Copies(commit, e.added - j) + lines[StartNew(e, c) - 1 + j..]
    decreases e.added - j
  {
    var s := StartNew(e, c) - 1 + j;
    if j < e.added {
      var next := lines[..s] + [commit] + lines[s..];
      assert Changed(lines, Additions(e, c, j)[0], commit) == next;
      assert Additions(e, c, j)[1..] == Additions(e, c, j + 1);
      AdditionsUpdate(next, e, c, j + 1, commit);
      assert next[..s + 1] == lines[..s] + [commit];
      assert next[s + 1..] == lines[s..];
      assert lines[..s] + [commit] + Copies(commit, e.added - j - 1) == lines[..s] + Copies(commit, e.added - j);
    }
  }

  /** One hunk replaces `deleted` lines from the new start on. */
  lemma HunkUpdate(lines: seq<Commit>, e: Edit, c: nat, commit: Commit)
    requires c + e.deleted <= |lines|
    ensures var s := StartNew(e, c) - 1;
            s + e.deleted <= |lines| &&
            Updated(lines, Deletions(e, c, 0) + Additions(e, c, 0), commit)
            == lines[..s] + Copies(commit, e.added) + lines[s + e.deleted..]
  {
    var s := StartNew(e, c) - 1;
    var next := lines[..s] + lines[s + e.deleted..];
    UpdatedConcat(lines, Deletions(e, c, 0), Additions(e, c, 0), commit);
    DeletionsUpdate(lines, e, c, 0, commit);
    AdditionsUpdate(next, e, c, 0, commit);
    assert next[..s] == lines[..s] && next[s..] == lines[s + e.deleted..];
  }

  /** The hunk is applied where it should be, or the difference cannot be seen. */
  predicate Faithful(old_: seq<Commit>, e: Edit)
    requires e.at + e.deleted <= |old_|
  {
    e.added > 0 || e.deleted == 0 || e.at == 0 || old_[e.at - 1] == old_[e.at + e.deleted - 1]
  }

  /** What the loop makes of the old lines from..at and a hunk: a pure deletion inside the file keeps the blame
      of the last deleted line for the line before the hunk. */
  function Piece(old_: seq<Commit>, e: Edit, from: nat, commit: Commit): seq<Commit>
    requires from <= e.at && e.at + e.deleted <= |old_| && (0 < e.at ==> from < e.at || e.added > 0 || e.deleted == 0)
  {
    if e.added > 0 || e.deleted == 0 || e.at == 0 then old_[from..e.at] + Copies(commit, e.added)
    else old_[from..e.at - 1] + [old_[e.at + e.deleted - 1]]
  }

  lemma CutAt(done: seq<Commit>, old_: seq<Commit>, from: nat, s: nat, k: nat)
    requires from <= |old_| && |done| <= s <= k <= |done| + |old_| - from
    ensures (done + old_[from..])[..s] == done + old_[from..from + s - |done|]
    ensures (done + old_[from..])[k..] == old_[from + k - |done|..]
  {
  }

  lemma Regroup(a: seq<Commit>, b: seq<Commit>, c: seq<Commit>, d: seq<Commit>)
    ensures a + b + c + d == a + (b + c) + d
  {
  }

  lemma HunkInPlace(done: seq<Commit>, old_: seq<Commit>, e: Edit, from: nat, c: nat, commit: Commit)
    requires from <= e.at && e.at + e.deleted <= |old_| && c == |done| + (e.at - from)
    requires e.added > 0 || c == 0
    ensures Updated(done + old_[from..], Deletions(e, c, 0) + Additions(e, c, 0), commit)
         == done + (old_[from..e.at] + Copies(commit, e.added)) + old_[e.at + e.deleted..]
  {
    hide Updated, Deletions, Additions, Copies;
    HunkUpdate(done + old_[from..], e, c, commit);
    CutAt(done, old_, from, c, c + e.deleted);
    Regroup(done, old_[from..e.at], Copies(commit, e.added), old_[e.at + e.deleted..]);
  }

  lemma HunkOffByOne(done: seq<Commit>, old_: seq<Commit>, e: Edit, from: nat, c: nat, commit: Commit)
    requires from < e.at && e.at + e.deleted <= |old_| && c == |done| + (e.at - from)
    requires e.added == 0 && e.deleted > 0
    ensures Updated(done + old_[from..], Deletions(e, c, 0) + Additions(e, c, 0), commit)
         == done + (old_[from..e.at - 1] + [old_[e.at + e.deleted - 1]]) + old_[e.at + e.deleted..]
  {
    hide Updated, Deletions, Additions, Copies;
    HunkUpdate(done + old_[from..], e, c, commit);
    CutAt(done, old_, from, c - 1, c - 1 + e.deleted);
    CutEmpty(Copies(commit, e.added));
    var last, tail := [old_[e.at + e.deleted - 1]], old_[e.at + e.deleted..];
    assert old_[e.at + e.deleted - 1..] == last + tail;
    var head := done + old_[from..e.at - 1];
    assert head + [] + (last + tail) == head + last + tail;
    Regroup(done, old_[from..e.at - 1], last, tail);
  }

  lemma HunkOfNothing(done: seq<Commit>, old_: seq<Commit>, e: Edit, from: nat, c: nat, commit: Commit)
    requires from <= e.at <= |old_| && e.added == 0 && e.deleted == 0
    ensures Updated(done + old_[from..], Deletions(e, c, 0) + Additions(e, c, 0), commit)
         == done + (old_[from..e.at] + Copies(commit, e.added)) + old_[e.at..]
  {
    assert Deletions(e, c, 0) + Additions(e, c, 0) == [];
    assert old_[from..] == old_[from..e.at] + old_[e.at..];
  }

  /** The hunk at the cut between finished lines and the untouched rest of the old file. */
  lemma HunkPiece(done: seq<Commit>, old_: seq<Commit>, e: Edit, from: nat, c: nat, commit: Commit)
    requires from <= e.at && e.at + e.deleted <= |old_| && c == |done| + (e.at - from)
    requires from < e.at || (from == 0 && done == [])
    ensures Updated(done + old_[from..], Deletions(e, c, 0) + Additions(e, c, 0), commit)
         == done + Piece(old_, e, from, commit) + old_[e.at + e.deleted..]
  {
    hide Updated, Deletions, Additions, Copies;
    if e.added > 0 || e.at == 0 {
      HunkInPlace(done, old_, e, from, c, commit);
    } else if e.deleted == 0 {
      HunkOfNothing(done, old_, e, from, c, commit);
    } else {
      HunkOffByOne(done, old_, e, from, c, commit);
    }
  }

  lemma CutEmpty(a: seq<Commit>)
    requires |a| == 0
    ensures a == []
  {
  }

  /** The loop over a whole diff, from a cut on. */
  ghost function Outcome(old_: seq<Commit>, edits: seq<Edit>, from: nat, low: nat, commit: Commit): seq<Commit>
    requires from <= |old_| && Script(edits, low, |old_|) && (low == from + 1 || low == from == 0)
    decreases |edits|
  {
    if edits == [] then old_[from..]
    else
      var e := edits[0];
      Piece(old_, e, from, commit) + Outcome(old_, edits[1..], e.at + e.deleted, e.at + e.deleted + 1, commit)
  }

  lemma ChangesStep(edits: seq<Edit>, shift: int, c: nat)
    requires edits != [] && c == if 0 <= edits[0].at + shift then edits[0].at + shift else 0
    ensures Changes(edits, shift) == Deletions(edits[0], c, 0) + Additions(edits[0], c, 0)
                                     + Changes(edits[1..], shift + edits[0].added - edits[0].deleted)
  {
    hide Deletions, Additions;
  }

  lemma OutcomeStep(old_: seq<Commit>, edits: seq<Edit>, from: nat, low: nat, commit: Commit)
    requires from <= |old_| && Script(edits, low, |old_|) && (low == from + 1 || low == from == 0) && edits != []
    ensures var e, next := edits[0], edits[0].at + edits[0].deleted;
            Outcome(old_, edits, from, low, commit)
            == Piece(old_, e, from, commit) + Outcome(old_, edits[1..], next, next + 1, commit)
  {
    hide Piece;
  }

  lemma {:induction false} LoopOutcome(done: seq<Commit>, old_: seq<Commit>, edits: seq<Edit>, from: nat, low: nat,
                                       commit: Commit)
    requires from <= |old_| && Script(edits, low, |old_|) && (low == from + 1 || (low == from == 0 && done == []))
    ensures Updated(done + old_[from..], Changes(edits, |done| - from), commit)
         == done + Outcome(old_, edits, from, low, commit)
    decreases |edits|
  {
    hide Updated, Changes, Piece, Deletions, Additions, Numbered, Script, Outcome;
    if edits == [] {
      NoEdits(done + old_[from..], |done| - from, old_, from, low, commit);
    } else {
      var e, rest, shift: int := edits[0], edits[1..], |done| - from;
      ScriptStep(edits, low, |old_|);
      var next := e.at + e.deleted;
      OutcomeStep(old_, edits, from, low, commit);
      PieceLength(old_, e, from, commit);
      var piece := Piece(old_, e, from, commit);
      var hunk := Deletions(e, e.at + shift, 0) + Additions(e, e.at + shift, 0);
      HunkPiece(done, old_, e, from, e.at + shift, commit);
      ChangesStep(edits, shift, e.at + shift);
      NumberedConcat(Deletions(e, e.at + shift, 0), Additions(e, e.at + shift, 0));
      UpdatedConcat(done + old_[from..], hunk, Changes(rest, shift + e.added - e.deleted), commit);
      LoopOutcome(done + piece, old_, rest, next, next + 1, commit);
      Associate(done, piece, Outcome(old_, rest, next, next + 1, commit));
    }
  }

  lemma NoEdits(lines: seq<Commit>, shift: int, old_: seq<Commit>, from: nat, low: nat, commit: Commit)
    requires from <= |old_| && Script([], low, |old_|) && (low == from + 1 || low == from == 0)
    ensures Updated(lines, Changes([], shift), commit) == lines && Outcome(old_, [], from, low, commit) == old_[from..]
  {
  }

  lemma ScriptStep(edits: seq<Edit>, low: nat, n: nat)
    requires edits != [] && Script(edits, low, n)
    ensures low <= edits[0].at && edits[0].at + edits[0].deleted <= n
    ensures Script(edits[1..], edits[0].at + edits[0].deleted + 1, n)
  {
  }

  lemma NumberedConcat(a: seq<LineChange>, b: seq<LineChange>)
    requires Numbered(a) && Numbered(b)
    ensures Numbered(a + b)
  {
  }

  lemma Associate(a: seq<Commit>, b: seq<Commit>, c: seq<Commit>)
    ensures a + b + c == a + (b + c)
  {
  }

  lemma PieceLength(old_: seq<Commit>, e: Edit, from: nat, commit: Commit)
    requires from <= e.at && e.at + e.deleted <= |old_| && (0 < e.at ==> from < e.at)
    ensures |Piece(old_, e, from, commit)| == e.at - from + e.added
  {
  }

  lemma PieceIff(old_: seq<Commit>, e: Edit, from: nat, commit: Commit)
    requires from <= e.at && e.at + e.deleted <= |old_| && (0 < e.at ==> from < e.at)
    ensures Piece(old_, e, from, commit) == old_[from..e.at] + Copies(commit, e.added) <==> Faithful(old_, e)
  {
    if !(e.added > 0 || e.deleted == 0 || e.at == 0) {
      var good := old_[from..e.at] + Copies(commit, 0);
      assert good == old_[from..e.at - 1] + [old_[e.at - 1]];
      var actual := Piece(old_, e, from, commit);
      assert actual[e.at - 1 - from] == old_[e.at + e.deleted - 1] && good[e.at - 1 - from] == old_[e.at - 1];
    }
  }

  lemma ConcatEqual(a: seq<Commit>, b: seq<Commit>, a': seq<Commit>, b': seq<Commit>)
    requires |a| == |a'|
    ensures a + b == a' + b' <==> a == a' && b == b'
  {
    if a + b == a' + b' {
      assert a == (a + b)[..|a|] == (a' + b')[..|a|] == a';
      assert b == (a + b)[|a|..] == (a' + b')[|a|..] == b';
    }
  }

  lemma {:induction false} ScriptBounds(edits: seq<Edit>, low: nat, n: nat)
    requires Script(edits, low, n)
    ensures forall i :: 0 <= i < |edits| ==> edits[i].at + edits[i].deleted <= n
    decreases |edits|
  {
    if edits != [] {
      ScriptBounds(edits[1..], edits[0].at + edits[0].deleted + 1, n);
      assert forall i :: 1 <= i < |edits| ==> edits[i] == edits[1..][i - 1];
    }
  }

  /** Every hunk is faithful. */
  ghost predicate AllFaithful(old_: seq<Commit>, edits: seq<Edit>)
    requires forall i :: 0 <= i < |edits| ==> edits[i].at + edits[i].deleted <= |old_|
  {
    forall i :: 0 <= i < |edits| ==> Faithful(old_, edits[i])
  }

  lemma AllFaithfulStep(old_: seq<Commit>, edits: seq<Edit>)
    requires edits != [] && forall i :: 0 <= i < |edits| ==> edits[i].at + edits[i].deleted <= |old_|
    ensures AllFaithful(old_, edits) <==> Faithful(old_, edits[0]) && AllFaithful(old_, edits[1..])
  {
    hide Faithful;
    assert forall i :: 1 <= i < |edits| ==> edits[i] == edits[1..][i - 1];
  }

  lemma {:induction false} OutcomeIff(old_: seq<Commit>, edits: seq<Edit>, from: nat, low: nat, commit: Commit)
    requires from <= |old_| && Script(edits, low, |old_|) && Script(edits, from, |old_|)
    requires low == from + 1 || low == from == 0
    requires forall i :: 0 <= i < |edits| ==> edits[i].at + edits[i].deleted <= |old_|
    ensures Outcome(old_, edits, from, low, commit) == Patched(old_, edits, from, commit) <==> AllFaithful(old_, edits)
    decreases |edits|
  {
    if edits != [] {
      var e, rest := edits[0], edits[1..];
      var next := e.at + e.deleted;
      ScriptFrom(edits, from, |old_|);
      OutcomeIff(old_, rest, next, next + 1, commit);
      AllFaithfulStep(old_, edits);
      hide Piece, Copies, Faithful, AllFaithful;
      PieceIff(old_, e, from, commit);
      PieceLength(old_, e, from, commit);
      ConcatEqual(Piece(old_, e, from, commit), Outcome(old_, rest, next, next + 1, commit),
                  old_[from..e.at] + Copies(commit, e.added), Patched(old_, rest, next, commit));
    }
  }

  /** Replaying a commit gives exactly the blame it should if and only if every hunk adds a line, or deletes
      nothing, or starts the file, or the line before it has the blame of its last deleted line. */
  lemma ReplayIff(old_: seq<Commit>, edits: seq<Edit>, commit: Commit)
    requires Script(edits, 0, |old_|)
    ensures forall i :: 0 <= i < |edits| ==> edits[i].at + edits[i].deleted <= |old_|
    ensures Updated(old_, Changes(edits, 0), commit) == Patched(old_, edits, 0, commit) <==> AllFaithful(old_, edits)
  {
    hide Updated, Changes, Patched, Outcome, AllFaithful;
    ScriptBounds(edits, 0, |old_|);
    LoopOutcome([], old_, edits, 0, 0, commit);
    assert [] + old_[0..] == old_;
    assert [] + Outcome(old_, edits, 0, 0, commit) == Outcome(old_, edits, 0, 0, commit);
    OutcomeIff(old_, edits, 0, 0, commit);
  }

  /** A hunk that deletes line 2 of two lines removes the blame of line 1. */
  lemma DeletionIsOffByOne(a: Commit, b: Commit, commit: Commit)
    requires a != b
    ensures Script([Edit(1, 1, 0)], 0, 2)
    ensures Updated([a, b], Changes([Edit(1, 1, 0)], 0), commit) == [b]
    ensures Patched([a, b], [Edit(1, 1, 0)], 0, commit) == [a]
  {
    var e := Edit(1, 1, 0);
    assert [e][1..] == [];
    HunkUpdate([a, b], e, 1, commit);
    assert Changes([e], 0) == Deletions(e, 1, 0) + Additions(e, 1, 0) + [];
    assert Deletions(e, 1, 0) + Additions(e, 1, 0) + [] == Deletions(e, 1, 0) + Additions(e, 1, 0);
  }
}
