# Cluster-result assembly of the DBSCAN aggregation analysis

`aggregation_analysis.py` clusters the selected particles of every frame of a
molecular-dynamics trajectory with DBSCAN. It keeps each frame's result in a
`cluster_group` object and collects those objects in a `cluster_trajectory`.
This project models the part of the script that is its own logic:

- **The frame object** (`cluster_group.__init__`). From the DBSCAN labels
  (one per selected atom, `-1` for noise), the core positions and the global
  atom ids of the selection, it derives:
  - the fringe mask;
  - the core and fringe atom ids;
  - one wrapped id group per cluster;
  - the cluster count.
- **The trajectory** (`cluster_trajectory`). It is an append-only list of
  frames.
- **The acceptance guard.** A clustered frame is kept only when the
  selection size equals the number of labels.
- **The selection query.** The driver builds the query
  `resname r1 or resname r2 or … resname rk` from the residue names.

Modules:

- `Masks` (masks.dfy). The numpy element-wise operations the frame uses:
  `np.arange`, `np.in1d` against a list, `np.invert`, `labels == c`, and
  selecting an atom group by a boolean mask (`Compress`).
- `ClusterFrame` (cluster_frame.dfy). The derived fields as functions of the
  inputs. `GroupByCluster` is the loop that builds `cluster_atomids`.
  `ClusterGroup` is the frame object; its fields are constants, because
  nothing changes a frame once it is built.
- `Trajectory` (trajectory.dfy). `ClusterTrajectory`, whose `frames`
  sequence only `AddFrame` extends.
- `Pipeline` (pipeline.dfy). The query builder and the acceptance guard.

Modelling choices:

- A selection is the sequence of the selected atoms' global ids (`seq<nat>`).
  Position i of the labels belongs to atom `selection[i]`.
- Labels and core positions are `seq<int>`. Any integer is allowed, not only
  what DBSCAN returns.
- The timestamp is a `real`. It is stored and never computed on.
- The script visits the clusters through a Python `set`, whose iteration
  order is not specified. The model visits distinct labels in order of first
  occurrence in the labels. `DistinctIsFirstOccurrenceOrder` proves this order
  against an independent definition. The facts about the groups' contents and
  their count do not depend on the order.
- The frame keeps only the fringe mask (`fringe_labels`, line 38). The core
  mask on line 39 is built inline and not stored, and the model does the
  same.
- The partition facts, that each id is in exactly one of core and fringe and
  each clustered id in exactly one group, are proved two ways:
  - with multisets, which hold whatever the ids are (`CoreFringePartition`,
    `GroupsHoldClusteredIds`);
  - per atom, under the assumption that the selection holds distinct ids, as
    an atom group does (`CoreFringeMembership`, `ClusterMembersExact`,
    `ClustersDisjoint`, `NoiseInNoCluster`).

## Model

| member | source | states |
|---|---|---|
| `Masks.Compress` | aggregation_analysis.py:39-40 | selecting by a boolean mask of the selection's length yields as many ids as the mask has true entries |
| `Masks.CompressMembership` | aggregation_analysis.py:47 | an id is selected exactly when it stands at some position where the mask is true |
| `Masks.CompressAt` | aggregation_analysis.py:39-40 | selection keeps selection order: the j-th selected id is the id at the j-th true position, and those positions increase |
| `Masks.CompressSplit` | aggregation_analysis.py:39-40 | a mask and its negation together select every element as often as it occurs, so the two selections partition the input |
| `Masks.CountSplit` | aggregation_analysis.py:38 | a mask and its negation have one true entry per position between them |
| `ClusterFrame.FringeMaskExact` | aggregation_analysis.py:38 | `FringeMask` (`fringe_labels`) has one entry per selected atom, and entry i is true exactly when i is not among the core labels |
| `ClusterFrame.FringeMaskIgnoresOrderAndJunk` | aggregation_analysis.py:38-40 | out-of-range, repeated or reordered core labels change neither `FringeMask` nor `CoreAtomIds` (`core_atomids`) nor `FringeAtomIds` (`fringe_atomids`); only the set of in-range core positions matters |
| `ClusterFrame.CoreCount` | aggregation_analysis.py:39 | the number of core positions equals the number of distinct in-range core labels |
| `ClusterFrame.CoreFringePartition` | aggregation_analysis.py:39-40 | `CoreAtomIds` (`core_atomids`) has as many ids as there are distinct in-range core positions; it and `FringeAtomIds` (`fringe_atomids`) together number the selection size and hold every selection id exactly as often as the selection does |
| `ClusterFrame.CoreFringeMembership` | aggregation_analysis.py:38-40 | for distinct ids, the atom at position i is a core id exactly when i is a core label and a fringe id exactly when it is not |
| `ClusterFrame.NClusters` | aggregation_analysis.py:42 | `len(set(labels)) - (1 if -1 in labels else 0)` is the number of distinct labels other than -1, whether or not -1 occurs |
| `ClusterFrame.Distinct` | aggregation_analysis.py:44 | the labels visited hold no duplicate and are exactly the labels that occur |
| `ClusterFrame.DistinctIsFirstOccurrenceOrder` | aggregation_analysis.py:44 | the visiting order is first occurrence: the distinct labels are the labels at the positions where each first appears, in position order |
| `ClusterFrame.Clusters` | aggregation_analysis.py:44-45 | the clusters visited hold no duplicate and are exactly the labels that occur, other than -1 |
| `ClusterFrame.ClusterCount` | aggregation_analysis.py:42-48 | there are exactly `n_clusters` clusters, one per distinct non-noise label |
| `ClusterFrame.GroupByCluster` | aggregation_analysis.py:44-48 | the loop that visits each distinct label, skips -1 and appends the wrapped ids of the rest builds exactly `ClusterAtomIds` (`cluster_atomids`) |
| `ClusterFrame.ClusterAtomIdsShape` | aggregation_analysis.py:44-48 | `ClusterAtomIds` (`cluster_atomids`) has `n_clusters` entries; each is a one-element list around exactly the ids labelled with that cluster's label, in selection order |
| `ClusterFrame.GroupsHoldClusteredIds` | aggregation_analysis.py:44-48 | the groups of `ClusterAtomIds` together hold every id whose label is not -1, as often as it occurs at such positions, and no other id, whatever the ids are |
| `ClusterFrame.ClusterIdsUnion` | aggregation_analysis.py:44-48 | an id is in some group exactly when some atom with that id has a label other than -1 |
| `ClusterFrame.AtomInOwnCluster` | aggregation_analysis.py:44-48 | every atom whose label is not -1 is in the group of its own label |
| `ClusterFrame.ClusterMembersExact` | aggregation_analysis.py:46-47 | for distinct ids, the atom at position i is in the k-th group exactly when its label is the k-th cluster's label |
| `ClusterFrame.ClustersDisjoint` | aggregation_analysis.py:44-48 | for distinct ids, no id is in two groups |
| `ClusterFrame.NoiseInNoCluster` | aggregation_analysis.py:45-48 | for distinct ids, an atom labelled -1 is in no group |
| `ClusterFrame.ClusterGroup.constructor` | aggregation_analysis.py:34-48 | the new frame stores the timestamp, labels and core labels, and the fringe mask, core and fringe ids, cluster groups and cluster count derived from them |
| `ClusterFrame.BuiltFrameInvariants` | aggregation_analysis.py:34-48 | a frame built from a selection has a fringe mask of the selection's length, core and fringe ids that partition the selection, `n_clusters` one-element group entries, and groups that hold exactly the clustered ids |
| `Trajectory.ClusterTrajectory.constructor` | aggregation_analysis.py:26-27 | a new trajectory has no frames |
| `Trajectory.ClusterTrajectory.AddFrame` | aggregation_analysis.py:29-30 | adds exactly one frame, built from the arguments, at the end; the earlier frames are unchanged |
| `Pipeline.AddIfConsistent` | aggregation_analysis.py:130-131 | a frame is appended exactly when the selection size equals the number of labels; otherwise the trajectory is left unchanged and nothing fails |
| `Pipeline.BuildSelectionCommand` | aggregation_analysis.py:93-97 | the loop builds exactly `SelectionQuery`: the "resname r" terms of the residue names, in list order, joined by " or " |
| `Pipeline.JoinLayout` | aggregation_analysis.py:93-97 | in a joined string, part i stands at its offset and every part but the last is followed by exactly one separator; the last part ends the string, so k parts are joined by exactly k-1 separators |
| `Pipeline.SelectionQueryLayout` | aggregation_analysis.py:93-97 | for each residue name, `SelectionQuery` holds "resname " and the name at that term's offset; one " or " follows it, unless it is the last name, whose term ends the query |

## Left out

- Argument parsing and the progress bar (aggregation_analysis.py:11-19, 107). These are command-line plumbing.
- Loading the Universe and iterating the trajectory (aggregation_analysis.py:90, 104, 106-110). These are an external object and file input. The model takes one frame's selection ids, labels and core positions as parameters.
- Distance computation: the dense `distance_array`, the approximate cell-grid `capped_distance_array` and the `csr_matrix` construction (aggregation_analysis.py:112-119). These are foreign calls over floating-point geometry.
- The DBSCAN fit (aggregation_analysis.py:122-124). It is an external library. Its labels and core sample indices are inputs to the model.
- `select_atoms`, `select_special` and `cluster_sizes` (aggregation_analysis.py:51-76). Their results are defined by a live MDAnalysis universe and by `getattr` reflection, and they read the global `u`.
- `radius_of_gyration` (aggregation_analysis.py:78-83). It is floating-point numerics over the global `u`.
- The pickle dump and the `n_clusters.dat` summary (aggregation_analysis.py:133-147). These are serialisation, file output and float formatting.
- ClusterFrame.ClusterGroup.constructor: requires as many labels as selected atoms. With fewer or more labels, numpy's boolean indexing raises for any non-noise label, and the script's only caller checks the lengths first (`Pipeline.AddIfConsistent`). The one case this leaves out is a mismatched frame whose labels are all -1: the source builds it without raising, and the model does not.
- Trajectory.ClusterTrajectory.AddFrame: has the same length requirement as the frame constructor, for the same reason.
- Pipeline.BuildSelectionCommand: requires at least one residue name. With none, the script fails at `args.residues[-1]` before any frame is processed.
- The iteration order of Python's `set(labels)` is not modelled. The model fixes it to first occurrence, as described above.
