/** Whose lines a commit changes: the first loop of updateSnapshot in programs/git-import/git-import.cpp, which
    looks every changed line up in the blame information before it is updated. */
module BlameInfo {
  import opened FileBlame
  import opened Wrappers

  /** The commit of line num, unless it is later than the one that is replayed. */
  function Earlier(lines: seq<Commit>, num: nat, time: nat): Option<Commit>
    requires 1 <= num
  {
    var found := LineAt(lines, num);
    if found.Some? && found.value.time <= time then found else None
  }

  /** Deletions name a line of the old file; line numbers do not come before their hunk. */
  predicate Sensible(changes: seq<LineChange>) {
    forall i :: 0 <= i < |changes| ==>
      (changes[i].sign == -1 ==> 1 <= changes[i].lineNumberOld) && changes[i].hunkStartNew <= changes[i].lineNumberNew
  }

  function Replaced(change: LineChange): nat
    requires change.hunkStartNew <= change.lineNumberNew
  {
    change.hunkStartOld + (change.lineNumberNew - change.hunkStartNew)
  }

  /** What is found out about one change when the old lines `seen` have been deleted before it. */
  function Info(lines: seq<Commit>, change: LineChange, seen: set<nat>, time: nat): Option<Commit>
    requires change.sign == -1 ==> 1 <= change.lineNumberOld
    requires change.hunkStartNew <= change.lineNumberNew && 0 !in seen
  {
    if change.sign == -1 then Earlier(lines, change.lineNumberOld, time)
    else if change.sign == 1 && Replaced(change) in seen then Earlier(lines, Replaced(change), time)
    else None
  }

  function Seen(change: LineChange): set<nat> { if change.sign == -1 then {change.lineNumberOld} else {} }

  function Infos(lines: seq<Commit>, changes: seq<LineChange>, seen: set<nat>, time: nat): seq<Option<Commit>>
    requires Sensible(changes) && 0 !in seen
    decreases |changes|
  {
    if changes == [] then []
    else [Info(lines, changes[0], seen, time)] + Infos(lines, changes[1..], seen + Seen(changes[0]), time)
  }

  /** The map holds exactly the deleted lines with an earlier commit. */
  ghost predicate Remembers(lines: seq<Commit>, deletedLines: map<nat, Commit>, seen: set<nat>, time: nat)
  {
    0 !in seen
    && (forall k :: k in deletedLines ==> k in seen && Earlier(lines, k, time) == Some(deletedLines[k]))
    && (forall k :: k in seen && Earlier(lines, k, time).Some? ==> k in deletedLines)
  }

  /** The body of the loop. */
  method LookUp(blame: Blame, change: LineChange, time: nat, deletedLines: map<nat, Commit>, ghost seen: set<nat>)
    returns (info: Option<Commit>, newDeletedLines: map<nat, Commit>)
    requires blame.Valid() && (change.sign == -1 ==> 1 <= change.lineNumberOld)
    requires change.hunkStartNew <= change.lineNumberNew && Remembers(blame.lines, deletedLines, seen, time)
    modifies blame`it, blame`currentIdx
    ensures blame.Valid() && info == Info(blame.lines, change, seen, time)
    ensures Remembers(blame.lines, newDeletedLines, seen + Seen(change), time)
  {
    info, newDeletedLines := None, deletedLines;
    if change.sign == -1 {
      var found := blame.Find(change.lineNumberOld);
      if found.Some? && found.value.time <= time {
        info := found;
        newDeletedLines := deletedLines[change.lineNumberOld := found.value];
      }
    } else if change.sign == 1 {
      var before := Replaced(change);
      if before in deletedLines {
        if deletedLines[before].time <= time {
          info := Some(deletedLines[before]);
        }
      }
    }
  }

  /** The loop that looks up the previous commit of every changed line, with its map of deleted lines. */
  method ObtainBlame(blame: Blame, changes: seq<LineChange>, time: nat) returns (prev: seq<Option<Commit>>)
    requires blame.Valid() && Sensible(changes)
    modifies blame`it, blame`currentIdx
    ensures blame.Valid() && prev == Infos(blame.lines, changes, {}, time)
  {
    hide Info, Remembers, Infos, Sensible;
    var deletedLines: map<nat, Commit> := map[];
    prev := [];
    var i := 0;
    ghost var seen: set<nat> := {};
    NothingSeen(blame.lines, time);
    assert changes[0..] == changes;
    SensibleFrom(changes, 0);
    while i < |changes|
      invariant 0 <= i <= |changes| && blame.Valid() && 0 !in seen
      invariant Remembers(blame.lines, deletedLines, seen, time) && Sensible(changes[i..])
      invariant prev + Infos(blame.lines, changes[i..], seen, time) == Infos(blame.lines, changes, {}, time)
    {
      var info;
      SensibleAt(changes, i);
      SensibleFrom(changes, i + 1);
      info, deletedLines := LookUp(blame, changes[i], time, deletedLines, seen);
      InfosStep(blame.lines, changes, i, seen, time);
      Regrouped(prev, info, Infos(blame.lines, changes[i + 1..], seen + Seen(changes[i]), time));
      seen := seen + Seen(changes[i]);
      prev := prev + [info];
      i := i + 1;
    }
    NoInfos(blame.lines, changes[i..], seen, time);
    assert prev + [] == prev;
  }

  lemma SensibleAt(changes: seq<LineChange>, i: nat)
    requires Sensible(changes) && i < |changes|
    ensures changes[i].sign == -1 ==> 1 <= changes[i].lineNumberOld
    ensures changes[i].hunkStartNew <= changes[i].lineNumberNew && 0 !in Seen(changes[i])
  {
  }

  lemma SensibleFrom(changes: seq<LineChange>, i: nat)
    requires Sensible(changes) && i <= |changes|
    ensures Sensible(changes[i..])
  {
  }

  lemma InfosStep(lines: seq<Commit>, changes: seq<LineChange>, i: nat, seen: set<nat>, time: nat)
    requires i < |changes| && Sensible(changes) && Sensible(changes[i..]) && Sensible(changes[i + 1..]) && 0 !in seen
    requires 0 !in Seen(changes[i])
    ensures Infos(lines, changes[i..], seen, time)
         == [Info(lines, changes[i], seen, time)] + Infos(lines, changes[i + 1..], seen + Seen(changes[i]), time)
  {
    hide Info;
    assert changes[i..][1..] == changes[i + 1..] && changes[i..][0] == changes[i];
  }

  lemma Regrouped(prev: seq<Option<Commit>>, info: Option<Commit>, rest: seq<Option<Commit>>)
    ensures prev + ([info] + rest) == prev + [info] + rest
  {
  }

  lemma NoInfos(lines: seq<Commit>, changes: seq<LineChange>, seen: set<nat>, time: nat)
    requires changes == [] && Sensible(changes) && 0 !in seen
    ensures Infos(lines, changes, seen, time) == []
  {
  }

  lemma NothingSeen(lines: seq<Commit>, time: nat)
    ensures Remembers(lines, map[], {}, time)
  {
  }

  /** What should be found out about a hunk: the commit of each deleted line... */
  function DeletedInfos(old_: seq<Commit>, e: Edit, i: nat, time: nat): seq<Option<Commit>>
    requires i <= e.deleted && e.at + e.deleted <= |old_|
    decreases e.deleted - i
  {
    if i == e.deleted then []
    else [if old_[e.at + i].time <= time then Some(old_[e.at + i]) else None] + DeletedInfos(old_, e, i + 1, time)
  }

  /** ...and for each added line that of the deleted line in its place. */
  function AddedInfos(old_: seq<Commit>, e: Edit, j: nat, time: nat): seq<Option<Commit>>
    requires j <= e.added && e.at + e.deleted <= |old_|
    decreases e.added - j
  {
    if j == e.added then []
    else
      [if j < e.deleted && old_[e.at + j].time <= time then Some(old_[e.at + j]) else None]
      + AddedInfos(old_, e, j + 1, time)
  }

  function HunkInfos(old_: seq<Commit>, e: Edit, time: nat): seq<Option<Commit>>
    requires e.at + e.deleted <= |old_|
  {
    DeletedInfos(old_, e, 0, time) + AddedInfos(old_, e, 0, time)
  }

  ghost function ScriptInfos(old_: seq<Commit>, edits: seq<Edit>, low: nat, time: nat): seq<Option<Commit>>
    requires Script(edits, low, |old_|)
  {
    if edits == [] then []
    else HunkInfos(old_, edits[0], time) + ScriptInfos(old_, edits[1..], edits[0].at + edits[0].deleted + 1, time)
  }

  function AllSeen(changes: seq<LineChange>): set<nat> {
    if changes == [] then {} else Seen(changes[0]) + AllSeen(changes[1..])
  }

  lemma {:induction false} InfosConcat(lines: seq<Commit>, a: seq<LineChange>, b: seq<LineChange>, seen: set<nat>,
                                       time: nat)
    requires Sensible(a) && Sensible(b) && 0 !in seen
    ensures 0 !in AllSeen(a)
    ensures Infos(lines, a + b, seen, time) == Infos(lines, a, seen, time) + Infos(lines, b, seen + AllSeen(a), time)
    decreases |a|
  {
    if a == [] {
      assert a + b == b && seen + {} == seen;
    } else {
      assert (a + b)[1..] == a[1..] + b;
      InfosConcat(lines, a[1..], b, seen + Seen(a[0]), time);
      assert seen + Seen(a[0]) + AllSeen(a[1..]) == seen + AllSeen(a);
    }
  }

  lemma {:induction false} DeletionInfos(lines: seq<Commit>, e: Edit, c: nat, i: nat, seen: set<nat>, time: nat)
    requires i <= e.deleted && 0 !in seen && e.at + e.deleted <= |lines|
    ensures Sensible(Deletions(e, c, i))
    ensures forall k :: k in AllSeen(Deletions(e, c, i)) <==> e.at + 1 + i <= k <= e.at + e.deleted
    ensures Infos(lines, Deletions(e, c, i), seen, time) == DeletedInfos(lines, e, i, time)
    decreases e.deleted - i
  {
    if i < e.deleted {
      var changes := Deletions(e, c, i);
      assert changes[1..] == Deletions(e, c, i + 1);
      DeletionInfos(lines, e, c, i + 1, seen + Seen(changes[0]), time);
    }
  }

  /** The old lines from e.at on that have been seen are those of the hunk. */
  ghost predicate SeenFrom(e: Edit, seen: set<nat>) {
    0 !in seen && forall k :: k in seen && e.at <= k ==> e.at + 1 <= k <= e.at + e.deleted
  }

  lemma AdditionInfo(lines: seq<Commit>, e: Edit, c: nat, j: nat, seen: set<nat>, time: nat)
    requires j < e.added && SeenFrom(e, seen) && e.at + e.deleted <= |lines|
    requires forall k :: e.at + 1 <= k <= e.at + e.deleted ==> k in seen
    ensures Info(lines, Additions(e, c, j)[0], seen, time)
         == if j < e.deleted && lines[e.at + j].time <= time then Some(lines[e.at + j]) else None
  {
    assert Replaced(Additions(e, c, j)[0]) == StartOld(e) + j;
  }

  lemma AdditionsShape(e: Edit, c: nat, j: nat)
    requires j < e.added
    ensures Additions(e, c, j) != [] && Additions(e, c, j)[1..] == Additions(e, c, j + 1)
    ensures Additions(e, c, j)[0].sign == 1 && Additions(e, c, j)[0].hunkStartNew <= Additions(e, c, j)[0].lineNumberNew
  {
  }

  lemma {:induction false} AdditionInfos(lines: seq<Commit>, e: Edit, c: nat, j: nat, seen: set<nat>, time: nat)
    requires j <= e.added && SeenFrom(e, seen) && e.at + e.deleted <= |lines|
    requires forall k :: e.at + 1 <= k <= e.at + e.deleted ==> k in seen
    ensures Sensible(Additions(e, c, j)) && AllSeen(Additions(e, c, j)) == {}
    ensures Infos(lines, Additions(e, c, j), seen, time) == AddedInfos(lines, e, j, time)
    decreases e.added - j
  {
    if j < e.added {
      hide Info, Earlier, Additions;
      AdditionsShape(e, c, j);
      AdditionInfo(lines, e, c, j, seen, time);
      assert seen + Seen(Additions(e, c, j)[0]) == seen;
      AdditionInfos(lines, e, c, j + 1, seen, time);
    }
  }

  lemma HunkFinds(old_: seq<Commit>, e: Edit, c: nat, seen: set<nat>, time: nat)
    requires e.at + e.deleted <= |old_| && forall k :: k in seen ==> 1 <= k < e.at
    ensures Sensible(Deletions(e, c, 0) + Additions(e, c, 0))
    ensures forall k :: k in AllSeen(Deletions(e, c, 0) + Additions(e, c, 0)) ==> e.at + 1 <= k <= e.at + e.deleted
    ensures Infos(old_, Deletions(e, c, 0) + Additions(e, c, 0), seen, time) == HunkInfos(old_, e, time)
  {
    var deletions, additions := Deletions(e, c, 0), Additions(e, c, 0);
    DeletionInfos(old_, e, c, 0, seen, time);
    AdditionInfos(old_, e, c, 0, seen + AllSeen(deletions), time);
    hide Deletions, Additions, Info, Earlier;
    InfosConcat(old_, deletions, additions, seen, time);
    AllSeenConcat(deletions, additions);
  }

  lemma {:induction false} AllSeenConcat(a: seq<LineChange>, b: seq<LineChange>)
    ensures AllSeen(a + b) == AllSeen(a) + AllSeen(b)
    decreases |a|
  {
    if a == [] {
      assert a + b == b;
    } else {
      assert (a + b)[1..] == a[1..] + b;
      AllSeenConcat(a[1..], b);
    }
  }

  /** Over a whole diff, every deleted line is traced to its commit and every added line to the commit of the
      deleted line in its place, if that is not later: no line of another hunk gets in the way. */
  lemma {:induction false} ScriptFinds(old_: seq<Commit>, edits: seq<Edit>, low: nat, shift: int, seen: set<nat>,
                                       time: nat)
    requires Script(edits, low, |old_|) && forall k :: k in seen ==> 1 <= k < low
    ensures Sensible(Changes(edits, shift))
    ensures Infos(old_, Changes(edits, shift), seen, time) == ScriptInfos(old_, edits, low, time)
    decreases |edits|
  {
    hide Deletions, Additions, Changes, Infos, HunkInfos, Script, AllSeen, Sensible;
    if edits == [] {
      NoChanges(old_, shift, seen, time);
    } else {
      var e, rest := edits[0], edits[1..];
      var c := if 0 <= e.at + shift then e.at + shift else 0;
      var hunk, later := Deletions(e, c, 0) + Additions(e, c, 0), Changes(rest, shift + e.added - e.deleted);
      ScriptStep(edits, low, |old_|);
      ChangesStep(edits, shift, c);
      HunkFinds(old_, e, c, seen, time);
      assert forall k :: k in seen + AllSeen(hunk) ==> 1 <= k < e.at + e.deleted + 1;
      ScriptFinds(old_, rest, e.at + e.deleted + 1, shift + e.added - e.deleted, seen + AllSeen(hunk), time);
      SensibleConcat(hunk, later);
      InfosConcat(old_, hunk, later, seen, time);
    }
  }

  lemma NoChanges(old_: seq<Commit>, shift: int, seen: set<nat>, time: nat)
    requires 0 !in seen
    ensures Sensible(Changes([], shift)) && Infos(old_, Changes([], shift), seen, time) == []
  {
  }

  lemma SensibleConcat(a: seq<LineChange>, b: seq<LineChange>)
    requires Sensible(a) && Sensible(b)
    ensures Sensible(a + b)
  {
  }
}
