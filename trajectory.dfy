/** The `cluster_trajectory` object: the clustered frames of a run, in the
    order they were accepted. Frames are only ever appended. */
module Trajectory {
  import opened ClusterFrame

  class ClusterTrajectory {
    var frames: seq<ClusterGroup>

    constructor ()
      ensures frames == []
    {
      frames := [];
    }

    /** Builds the frame for these inputs and appends it; the frames already
        there stay as they were. */
    method AddFrame(timeStep: real, labels: seq<int>, coreLabels: seq<int>, selection: seq<nat>)
      requires |labels| == |selection|
      modifies this
      ensures |frames| == |old(frames)| + 1
      ensures frames[..|old(frames)|] == old(frames)
      ensures fresh(frames[|old(frames)|])
      ensures frames[|old(frames)|].BuiltFrom(timeStep, labels, coreLabels, selection)
    {
      var frame := new ClusterGroup(timeStep, labels, coreLabels, selection);
      frames := frames + [frame];
    }
  }
}
