/** The driver's own logic: the selection query it builds from the residue
    names, and the check that decides whether a clustered frame is kept. */
module Pipeline {
  import opened ClusterFrame
  import opened Trajectory

  // ---------------------------------------------------------------------------
  // The selection query
  // ---------------------------------------------------------------------------

  const TERM_PREFIX := "resname "
  const SEPARATOR := " or "

  /** The query term that selects one residue name. */
  function Term(residue: string): string {
    TERM_PREFIX + residue
  }

  function Terms(residues: seq<string>): seq<string> {
    seq(|residues|, i requires 0 <= i < |residues| => Term(residues[i]))
  }

  /** The parts, in order, with sep between each two neighbours. */
  function Join(parts: seq<string>, sep: string): string
    requires |parts| > 0
  {
    if |parts| == 1 then parts[0] else parts[0] + sep + Join(parts[1..], sep)
  }

  /** The query selecting every atom whose residue name is one of residues. */
  function SelectionQuery(residues: seq<string>): string
    requires |residues| > 0
  {
    Join(Terms(residues), SEPARATOR)
  }

  /** What the loop has built after visiting residues: each term followed by
      the separator. */
  function QueryPrefix(residues: seq<string>): string {
    if |residues| == 0 then ""
    else QueryPrefix(residues[..|residues| - 1]) + TERM_PREFIX + residues[|residues| - 1] + SEPARATOR
  }

  /** Builds the selection command as the script does: a term and a separator
      for every name but the last, then the last name's term. An empty list
      of names makes the script fail, so it is excluded. */
  method BuildSelectionCommand(residues: seq<string>) returns (command: string)
    requires |residues| > 0
    ensures command == SelectionQuery(residues)
  {
    command := "";
    for k := 0 to |residues| - 1
      invariant command == QueryPrefix(residues[..k])
    {
      assert residues[..k + 1][..k] == residues[..k];
      command := command + TERM_PREFIX + residues[k] + SEPARATOR;
    }
    command := command + TERM_PREFIX + residues[|residues| - 1];
    PrefixThenLast(residues);
  }

  lemma {:induction false} PrefixJoin(residues: seq<string>, rest: seq<string>)
    requires |rest| > 0
    ensures QueryPrefix(residues) + Join(rest, SEPARATOR) == Join(Terms(residues) + rest, SEPARATOR)
  {
    if |residues| > 0 {
      var n := |residues| - 1;
      var front, last := residues[..n], residues[n];
      PrefixJoin(front, [Term(last)] + rest);
      assert Terms(residues) == Terms(front) + [Term(last)];
      assert Terms(front) + [Term(last)] + rest == Terms(front) + ([Term(last)] + rest);
      assert Join([Term(last)] + rest, SEPARATOR) == Term(last) + SEPARATOR + Join(rest, SEPARATOR) by {
        assert ([Term(last)] + rest)[1..] == rest;
      }
    } else {
      assert Terms(residues) + rest == rest;
    }
  }

  lemma PrefixThenLast(residues: seq<string>)
    requires |residues| > 0
    ensures QueryPrefix(residues[..|residues| - 1]) + TERM_PREFIX + residues[|residues| - 1] == SelectionQuery(residues)
  {
    var n := |residues| - 1;
    PrefixJoin(residues[..n], [Term(residues[n])]);
    assert Terms(residues[..n]) + [Term(residues[n])] == Terms(residues);
  }

  /** Where the i-th part starts in Join(parts, sep). */
  function Offset(parts: seq<string>, sep: string, i: nat): nat
    requires i <= |parts|
  {
    if i == 0 then 0 else |parts[0]| + |sep| + Offset(parts[1..], sep, i - 1)
  }

  /** The layout of a joined string: part i stands at Offset(i), is followed
      by one separator when it is not the last, and the last part ends the
      string; so k parts are joined by exactly k - 1 separators. */
  lemma {:induction false} JoinLayout(parts: seq<string>, sep: string, i: nat)
    requires i < |parts|
    ensures i + 1 < |parts| ==> Offset(parts, sep, i + 1) == Offset(parts, sep, i) + |parts[i]| + |sep|
    ensures i + 1 < |parts| ==> Offset(parts, sep, i + 1) <= |Join(parts, sep)|
    ensures i + 1 == |parts| ==> |Join(parts, sep)| == Offset(parts, sep, i) + |parts[i]|
    ensures Join(parts, sep)[Offset(parts, sep, i)..Offset(parts, sep, i) + |parts[i]|] == parts[i]
    ensures i + 1 < |parts| ==>
      Join(parts, sep)[Offset(parts, sep, i) + |parts[i]|..Offset(parts, sep, i + 1)] == sep
  {
    var tail := parts[1..];
    if i > 0 {
      JoinLayout(tail, sep, i - 1);
      var head := parts[0] + sep;
      var rest := Join(tail, sep);
      assert Join(parts, sep) == head + rest;
      assert tail[i - 1] == parts[i];
      var at := Offset(tail, sep, i - 1);
      assert Offset(parts, sep, i) == |head| + at;
      ShiftedSlice(head, rest, at, at + |parts[i]|);
      if i + 1 < |parts| {
        assert Offset(parts, sep, i + 1) == |head| + Offset(tail, sep, i);
        ShiftedSlice(head, rest, at + |parts[i]|, Offset(tail, sep, i));
      }
    } else if |parts| > 1 {
      assert Offset(parts, sep, 1) == |parts[0]| + |sep| + Offset(tail, sep, 0);
      assert Join(parts, sep) == parts[0] + sep + Join(tail, sep);
    }
  }

  lemma ShiftedSlice(a: string, b: string, lo: nat, hi: nat)
    requires lo <= hi <= |b|
    ensures (a + b)[|a| + lo..|a| + hi] == b[lo..hi]
  {
  }

  /** The query holds every residue's term, in list order, each but the last
      followed by " or ", and nothing else. */
  lemma SelectionQueryLayout(residues: seq<string>, i: nat)
    requires i < |residues|
    ensures var q, at := SelectionQuery(residues), QueryOffset(residues, i);
      var end := at + |TERM_PREFIX| + |residues[i]|;
      && end <= |q|
      && q[at..end] == Term(residues[i])
      && (i + 1 < |residues| ==>
            && end + |SEPARATOR| <= |q|
            && q[end..end + |SEPARATOR|] == SEPARATOR
            && QueryOffset(residues, i + 1) == end + |SEPARATOR|)
      && (i + 1 == |residues| ==> |q| == end)
  {
    JoinLayout(Terms(residues), SEPARATOR, i);
  }

  /** Where the term of residues[i] starts in the query. */
  function QueryOffset(residues: seq<string>, i: nat): nat
    requires i <= |residues|
  {
    Offset(Terms(residues), SEPARATOR, i)
  }

  // ---------------------------------------------------------------------------
  // Accepting a clustered frame
  // ---------------------------------------------------------------------------

  /** Keeps a clustered frame only when the clustering labelled every
      selected atom; otherwise drops it without complaint. */
  method AddIfConsistent(traj: ClusterTrajectory, timeStep: real, labels: seq<int>, coreLabels: seq<int>,
                         selection: seq<nat>)
    returns (accepted: bool)
    modifies traj
    ensures accepted <==> |selection| == |labels|
    ensures !accepted ==> traj.frames == old(traj.frames)
    ensures accepted ==> |traj.frames| == |old(traj.frames)| + 1
    ensures accepted ==> traj.frames[..|old(traj.frames)|] == old(traj.frames)
    ensures accepted ==> fresh(traj.frames[|old(traj.frames)|])
    ensures accepted ==> traj.frames[|old(traj.frames)|].BuiltFrom(timeStep, labels, coreLabels, selection)
  {
    accepted := |selection| == |labels|;
    if accepted {
      traj.AddFrame(timeStep, labels, coreLabels, selection);
    }
  }
}
