# Open3DStream, modelled in Dafny

Open3DStream streams skeletons, rigid bodies and cameras between applications. A sender keeps a list of subjects, each
a list of transforms with parent indices; it sends full packets (keyframes) and updates over TCP or UDP; a receiver
keeps its own list, converts poses into its own coordinate context and rebuilds world matrices. This project models
that path and proves what it is for, over all inputs, runs and reachable states. `dafny verify dfyconfig.toml` checks
the whole project.

| File | What it holds |
|---|---|
| `Matrices.dfy`, `Contexts.dfy` | matrices over the reals; contexts, `computeConversion`, `ConversionContext` |
| `ConversionLaws.dfy`, `ComponentLaws.dfy` | a conversion is a change of coordinates; it agrees with the converters of translation, rotation and scale |
| `ProductLaws.dfy` | when conversion commutes with products; conversions compose, lose nothing and are undone |
| `Hierarchy.dfy` | what `calcMatrices` computes, pass by pass, and what its outcome means |
| `Nodes.dfy` | one transform and its local matrix; converting before and after composing |
| `Points.dfy` | what components, local matrices, chains and conversions do to points |
| `SceneTree.dfy`, `SceneModels.dfy` | flattening a scene tree into a parent array, and back; which models the list holds |
| `Packets.dfy` | what a packet carries, and what sending and parsing does to a list, as functions |
| `StreamLaws.dfy`, `DeltaRuns.dfy`, `SubjectIndex.dfy`, `PoseLaws.dfy` | keyframes heal; runs of updates stay in step; the uuid index, and what refused packets leave; the pose arrives |
| `WireLaws.dfy`, `FirstKeyframe.dfy` | what the packets hold, number by number; what a new receiver has after one keyframe |
| `Model.dfy`, `Lists.dfy`, `ListRuns.dfy` | the objects `Transform`, `Subject` and `SubjectList`, updated in place, tied to those functions; sessions of two lists |
| `Bytes.dfy`, `UdpFragment.dfy`, `UdpRuns.dfy`, `UdpStrays.dfy` | fragmenting and reassembly, runs and sessions over a network that reorders, repeats and loses, and datagrams that no sender made |
| `TcpFraming.dfy`, `TcpRuns.dfy` | the frame writer, the resumable receiver, and sessions in any chunks, from a boundary and from a new server |
| `BinaryStreams.dfy` | the typed byte stream |

Doubles are reals. The cast to `float` and the angle between two rotations are parameters (`Packets.Numerics`).
The other parameters are what the network delivers: the datagrams, the bytes that arrive between ticks, how much each
`Recv` returns and whether it fails, and whether a `Send` throws or would block. Classes, loops and arrays follow the
source where it works in place; each such method is proved against a function of the old state, and the lemmas are
about those functions.

## What the code does not do

For each of these there is the exact condition under which the code does what a reader expects, and inputs for which
it does not.

- The frame header check (UOpen3DServer.cpp:276) compares with `strncmp`, and the magic starts with a NUL, so only one
  byte is compared: `AcceptedMeaning` gives what is accepted, `CorruptHeaderAccepted` a header of zeros that is.
- "Cycle detected" (model.cpp:693) is never reported. With one root and parents in range `calcMatrices` returns true,
  and a flag stays unset exactly when there is a cycle: `CycleIsNotRejected`, `CycleExample`.
- Off a tree, running `calcMatrices` again can change its result, because the matrices of nodes that are not below the
  root are converted again. It does not exactly when the conversion leaves alone the old matrix of each such node:
  `CalcIdempotent`, with `RerunExample`. On a tree it never does (`CalcTwiceOnTree`), nor in a list that has only been
  parsed into, where those nodes are always as new (`ListRuns.ParseAll`, `CalcAgain`).
- A matrix component with a perspective row is not converted as its parts are, when lengths are scaled
  (`PerspectiveExample`). Composing and converting agree after every component exactly when no length is scaled or
  each component is separable from those before it (`ConvertPrefixes`); a matrix is safe in every transform exactly
  when no length is scaled or it has no such row (`SafeMatrices`).
- A full subject under a uuid that the receiver knows as another kind is added anew each time and never found
  (`ClashGrows`); a keyframe heals a subject exactly when its uuid is not known so (`HealedExactly`).
- A datagram that is refused under a new id leaves an empty message that counts as complete: the next `getFrame` hands
  over an empty frame and erases all smaller ids, exactly after such datagrams (`UdpStrays.EmptyFrames`, with
  `StrayExample`).
- The sender frames packets of any size, the receiver refuses more than 51200 bytes: everything is delivered exactly
  when no packet is larger (`WireScan`, with `OversizeExample`).
- The byte stream truncates lengths: a value is read back exactly when its length fits its prefix (`ReadBack`, with
  `LongTextExample`).
- Looking for the magic in SYNC, where every connection starts, the receiver drops what it holds at the end of a tick,
  even a part of the magic (UOpen3DServer.cpp:247). The first tick to see any of the stream keeps the frame boundary
  exactly when it sees 14 bytes or more: `FirstTick`; with fewer the packet is lost, unless it holds a magic itself
  (`SplitMagic`), for which a small one has no room (`SmallPacketLost`). From a boundary on the receiver never returns
  to SYNC: `Session`, and `FreshSession` from a new server.
- A `Send` that would block returns as if it had sent, so `writeTcp` leaves out that part of the frame and goes on
  (`WriteTcp`). What it writes of a packet that is not empty is the frame exactly when no `Send` did: `WrittenMeaning`.

## Model

| member | source | states |
|---|---|---|
| Contexts.ComputeConversion | src/o3ds/context.cpp:89-126 | fails exactly on an invalid context; otherwise every destination axis reads the source axis on the same line, reversed if it points the other way, and the unit is the ratio of the metres |
| Contexts.ConversionContext.constructor | src/o3ds/context.cpp:15-34 | valid exactly for two valid contexts, then the conversion between them; otherwise the identity |
| Contexts.ConversionContext.Initialize | src/o3ds/context.cpp:183-199 | the loop builds the change-of-basis matrix of the conversion, and its transpose |
| Contexts.ConversionContext.ConvertMatrix | src/o3ds/context.cpp:201-211 | the in-place scaling and the two products are the conversion of the matrix |
| ConversionLaws.BasisMeaning | src/o3ds/context.cpp:183-199 | the signed permutation takes coordinates along the source's axes to coordinates along the destination's |
| ConversionLaws.ValidMeaning | src/o3ds/context.h:117-130 | a context is valid exactly when its unit is known and its axes are unit vectors at right angles |
| ConversionLaws.Tables | src/o3ds/context.cpp:37-52 | the distance units by one another, and the directions by their opposites |
| ConversionLaws.ConvertThroughWorld | src/o3ds/context.cpp:201-211 | converting an affine matrix is leaving the source context for a shared space in metres and entering the destination |
| ConversionLaws.ConversionKeepsMotion | src/o3ds/context.cpp:201-211 | a converted motion is the same motion of the shared space |
| ProductLaws.ConversionOfProduct | src/o3ds/context.cpp:201-211 | converting a product is multiplying the converted factors exactly when the unit is 1 or the factors are separable, as affine ones always are |
| ConversionLaws.ConversionAffine | src/o3ds/context.cpp:201-211 | affine matrices stay affine |
| ConversionLaws.ConversionToSelf | src/o3ds/context.cpp:130-135 | from a context to itself the conversion is one that isIdentity reports, and changes nothing |
| ConversionLaws.IdentityConversion | src/o3ds/model.cpp:742-748 | skipping a conversion that isIdentity reports is no change, for every matrix |
| ProductLaws.ConversionsCompose | src/o3ds/context.cpp:89-126 | A to B to C is A to C on every matrix, and the units multiply exactly, for all valid contexts |
| ProductLaws.ConversionRoundTrip | src/o3ds/context.cpp:89-126 | A to B to A restores every matrix |
| ProductLaws.BasisInverse | src/o3ds/context.cpp:183-199 | the transpose of the basis is its inverse, for every signed permutation of the axes |
| ProductLaws.ConversionInjective | src/o3ds/context.cpp:201-211 | two matrices convert to the same one only if they are the same |
| ProductLaws.TranslationConverted | src/o3ds/context.cpp:201-211 | with the axes as they are, exactly the matrices without a translation are left alone, unless the unit is 1 |
| ComponentLaws.ConvertTranslate | src/o3ds/context.cpp:137-144 | converting a translation and converting its matrix agree |
| ComponentLaws.ConvertScale | src/o3ds/context.cpp:173-181 | converting a scale and converting its matrix agree |
| ComponentLaws.ConvertQuaternion | src/o3ds/context.cpp:146-171 | converting a quaternion and converting its matrix agree, for every quaternion and every signed permutation |
| ComponentLaws.Handedness | src/o3ds/context.cpp:156-168 | w is negated exactly when the permutation's parity and the signs disagree |
| Points.RotationMoves | src/o3ds/math.cpp:50-56 | the matrix of a quaternion (w, u) takes every v to v + 2w(u x v) + 2u x (u x v) |
| Points.TranslationMoves | src/o3ds/math.cpp:75-100 | a translation adds its vector to every place and leaves directions alone |
| Points.ScaleMoves | src/o3ds/math.cpp:66-73 | a scale multiplies every coordinate by its own factor |
| Points.ImageOfProduct | src/o3ds/model.cpp:265-294 | a product does to a point what its second factor and then its first do |
| Points.LocalByFirst | src/o3ds/model.cpp:265-294 | the first component of the order acts last, each TMatrix takes the next matrix, a TOrientation does nothing |
| Points.LocalPlaces | src/o3ds/model.cpp:265-294 | the local matrix takes every point where the components, from the last to the first, take it |
| Points.NewNodePlaces | src/o3ds/model.cpp:220-230 | a new transform leaves every point where it is, in every order without a TMatrix |
| Points.CalcPlaces | src/o3ds/model.cpp:646-751 | the world matrix of a node below the root takes every point where its components and then those of its ancestors take it |
| Points.ConvertedPlace | src/o3ds/context.cpp:137-144 | a converted translation stands at the same place of the shared space, in metres |
| Points.ConvertedMoves | src/o3ds/context.cpp:201-211 | points at the same place of the shared space are taken to the same place by an affine matrix and by the converted one |
| Nodes.LocalFlat | src/o3ds/model.cpp:265-294 | if the node's matrices have no perspective row, no prefix of its components composes to a matrix with one |
| Nodes.ConvertStep | src/o3ds/model.cpp:265-294 | one component more keeps composing and converting together exactly when the unit is 1 or the matrices are separable |
| Nodes.ConvertPrefixes | src/o3ds/model.cpp:265-294 | for every component order, composing converted components and converting what is composed agree after every component exactly when the unit is 1 or each component is separable from those before it |
| Nodes.FlatSeparable | src/o3ds/model.cpp:285-292 | they are if no matrix that the order uses has a perspective row, whatever others the transform holds |
| Nodes.ConvertLocal | src/o3ds/model.cpp:265-294 | then composing converted components is converting the composed local matrix |
| Nodes.SafeMatrices | src/o3ds/model.cpp:265-294 | no weaker condition on a matrix will do: it may stand in every transform exactly when the unit is 1 or it has no perspective row |
| Nodes.PerspectiveExample | src/o3ds/model.cpp:265-294 | a translation and a matrix with a perspective row, from a context in metres into one in centimetres: the two ways differ |
| Nodes.CalcConverted | src/o3ds/model.cpp:689-748 | in any node order, a world matrix converted after composition is the path product of locals composed from converted components, if the unit is 1 or everything on the root path is separable from what comes before it |
| Nodes.FlatConvertsAlong | src/o3ds/model.cpp:689-748 | it is if no matrix that is used has a perspective row |
| Nodes.CalcTidy | src/o3ds/model.cpp:646-751 | nodes not below a root keep the world matrix of a new transform through every run of the solver, whatever its outcome |
| Nodes.FreshCalcTwice | src/o3ds/model.cpp:646-751 | where the nodes not below the root hold the matrix of a new transform, a second run changes nothing, for every hierarchy |
| Hierarchy.CalcSucceeds | src/o3ds/model.cpp:664-739 | success exactly on one root and parents that are in range and not the node itself |
| Hierarchy.OutcomeMeaning | src/o3ds/model.cpp:678-722 | no root, two roots, or the first node in the list that names itself or a parent out of range: which refusal is reported, for every parent array |
| Hierarchy.SettleSound | src/o3ds/model.cpp:689-739 | when the loop stops, exactly the nodes whose parent chain reaches the root are set, each to the product of local matrices along its chain |
| Hierarchy.CalcMeaning | src/o3ds/model.cpp:646-751 | flags and world matrices after a successful run, with the conversion; unanchored nodes keep their old matrix, converted |
| Hierarchy.CalcLeftovers | src/o3ds/model.cpp:646-751 | whatever the outcome, nodes not below a root hold their old matrix, converted if the run succeeds |
| Hierarchy.CalcIdempotent | src/o3ds/model.cpp:646-751 | a second run changes nothing exactly when the conversion leaves alone the old matrix of every node that is not below the root |
| Hierarchy.CalcTwiceOnTree | src/o3ds/model.cpp:646-751 | on a tree a second run changes nothing |
| Hierarchy.RerunExample | src/o3ds/model.cpp:742-748 | a root and two nodes that are each other's parents, with any translated leftover and unit 100: a second run differs |
| Hierarchy.TreeUnlessCycle | src/o3ds/model.cpp:689-739 | every node is anchored exactly when no node is its own ancestor |
| Hierarchy.CycleIsNotRejected | src/o3ds/model.cpp:693-697 | on one root and parents in range the outcome is success, and a flag is unset exactly when there is a cycle |
| Hierarchy.CycleExample | src/o3ds/model.cpp:693-697 | a root and two nodes that are each other's parents: success, with two flags unset |
| Hierarchy.PassBudget | src/o3ds/model.cpp:689-739 | the loop stops within size() passes |
| Hierarchy.ChainPasses | src/o3ds/model.cpp:689-739 | a chain stored child first needs exactly size() passes, for every length |
| Hierarchy.PreorderPasses | src/o3ds/model.cpp:689-739 | with parents before children one productive pass sets everything |
| SceneTree.PerformerSubject.Traverse | plugins/mobu/mobuModel.cpp:92-126 | the recursive traversal appends the preorder list of the filtered tree; at a root it clears the list first |
| SceneTree.PerformerSubject.TraverseChildren | plugins/mobu/mobuModel.cpp:116-125 | the loop over the children appends the lists of the kept ones in order, all hanging on the same index |
| SceneTree.FlatBelow | plugins/mobu/mobuModel.cpp:113-124 | every parent index is below the entry's own, and only the first entry hangs on the given parent |
| SceneTree.FlatSolves | plugins/mobu/mobuModel.cpp:92-126 | a flattened tree has one root and parents first, and the solver sets all of it in one productive pass |
| SceneTree.BuildFlat | plugins/mobu/mobuModel.cpp:92-126 | rebuilding from the list gives back the trees it was made from, and stops where their list ends |
| SceneTree.FlattenInvertible | plugins/mobu/mobuModel.cpp:92-126 | the traversal loses nothing of the filtered tree; what that holds is in the next rows |
| SceneModels.NothingFiltered | plugins/mobu/mobuModel.cpp:107-111 | without a joint list a tree without empty slots is kept as it is |
| SceneModels.WalkDepicts | plugins/mobu/mobuModel.cpp:92-126 | for every joint list: a model is listed exactly when it and all its ancestors are there and on the joint list, if there is one; once, with its name, below its own parent, in the order of the slots |
| SceneModels.TraverseScene | plugins/mobu/mobuModel.cpp:92-126 | the same of the traversal of a root |
| Model.Transform.constructor | src/o3ds/model.cpp:220-230 | the state of a new transform |
| Model.Transform.Update | src/o3ds/model.cpp:265-294 | the loop leaves the product of the components in order as local matrix, which `LocalPlaces` and `LocalByFirst` explain, and clears the flag |
| Model.Transform.Serialize | src/o3ds/model.cpp:342-394 | the data sent, which `DataCarries` gives number by number, and that translation and rotation, not scale, are marked as sent |
| Model.Transform.Parse | src/o3ds/model.cpp:396-440 | name, parent and values are replaced, order and matrices appended to, world state left alone |
| Model.Transform.SendChanges | src/o3ds/model.cpp:786-809 | exactly what is over the threshold is marked as sent, as `UpdateMarks` gives by coordinates |
| Model.Subject.constructor | src/o3ds/model.cpp:513-523 | an enabled subject without transforms |
| Model.Subject.Parse | src/o3ds/model.cpp:558-585 | the transform list is replaced by new objects that mirror the packet, with the matrices and the flag of new transforms; the enabled flag stays |
| Model.Subject.Serialize | src/o3ds/model.cpp:753-766 | every transform is sent, in order, and marked |
| Model.Subject.SerializeUpdate | src/o3ds/model.cpp:768-826 | the update holds exactly the values over the threshold with their indices, as `UpdateCarries` gives by coordinates, and their count; the rest keeps its lastSentValue |
| Model.Subject.ParseUpdate | src/o3ds/model.cpp:526-556 | indexed values are set, indices outside the list ignored; matrices, flags and everything else stay |
| Model.Subject.UpdateAll | src/o3ds/model.cpp:648-662 | every local matrix is rebuilt and every flag cleared, world matrices stay |
| Model.Subject.MarkRoots | src/o3ds/model.cpp:666-676 | the roots are counted and set to their local matrix |
| Model.Subject.VisitOne | src/o3ds/model.cpp:702-737 | one node of the inner loop: set already, refused, waiting for its parent, or set below its parent |
| Model.Subject.SweepAll | src/o3ds/model.cpp:699-738 | the inner loop is one sweep up to the first refused node, and is done exactly when no flag was set |
| Model.Subject.Resolve | src/o3ds/model.cpp:689-739 | the outer loop with its counter reaches the fixpoint, or the first bad node; the budget is never spent |
| Model.Subject.ConvertIfNeeded | src/o3ds/model.cpp:742-748 | every world matrix is converted, unless there is no conversion or it is the identity |
| Model.Subject.CalcMatrices | src/o3ds/model.cpp:646-751 | every local matrix is rebuilt; result, error, flags and world matrices are those of the solver on the parents and local matrices; nothing else changes |
| Lists.SubjectList.constructor | src/o3ds/model.cpp:963-966 | an empty list with no context and the default threshold |
| Lists.SubjectList.SendKey | src/o3ds/model.cpp:1103-1127 | one enabled subject is sent in full and then updated; the other subjects keep their state |
| Lists.SubjectList.Serialize | src/o3ds/model.cpp:1081-1152 | the packet has the enabled subjects by kind, in list order, in full and as updates, and the list's own context, as `KeyframeCarries` gives; the list after it |
| Lists.SubjectList.SerializeUpdate | src/o3ds/model.cpp:1154-1212 | the packet has the updates of the enabled subjects and the list's own context, as `DeltaCarries` gives; the list after it |
| Lists.SubjectList.FindSubjectByUuid | src/o3ds/model.h:503-513 | the first subject with the uuid if it is of the kind, otherwise none |
| Lists.SubjectList.FindOrAddSubject | src/o3ds/model.h:477-488 | that subject, or a new one at the end of the list |
| Lists.SubjectList.ParseFull | src/o3ds/model.cpp:1339-1348 | one full subject: found or added, its transforms replaced, no other subject touched |
| Lists.SubjectList.ParseUpdate | src/o3ds/model.cpp:1354-1364 | one update: applied to its subject, ignored if that is not known |
| Lists.SubjectList.ParseSections | src/o3ds/model.cpp:1337-1422 | the entries of the packet in order: each kind's full subjects, then its updates |
| Lists.SubjectList.TakeContext | src/o3ds/model.cpp:1316-1329 | the sender's context is adopted if there is no valid one; otherwise both must be valid and the conversion between them is kept |
| Lists.Pose | src/o3ds/model.cpp:646-751 | on success, exactly the nodes below the root are flagged and hold their converted path product; nodes not below a root stay as new, if they were |
| Lists.SubjectList.CalcMatrices | src/o3ds/model.cpp:1436-1445 | succeeds exactly when every subject has one root and good parents, and then every subject is posed |
| Lists.SubjectList.Parse | src/o3ds/model.cpp:1215-1434 | the list and context after a packet; success exactly when it was read and all hierarchies are good; the conversion kept leads from the packet's context to the list's; then every world matrix below a root is the path product, converted; nodes not below a root stay as new, if they were |
| ListRuns.ParseAll | src/o3ds/model.cpp:1215-1434 | a new list over any run of packets, read or refused: it is what the run of the packets makes it, and nodes not below a root hold the world matrix of a new transform |
| ListRuns.CalcAgain | src/o3ds/model.cpp:1436-1445 | in such a list, once calculated, calculating again changes no world matrix and no flag, with cycles or without |
| ListRuns.Session | src/o3ds/model.cpp:1081-1434 | a sending and a receiving list over any edits, keyframes and updates, from a keyframe on: both are those of the run, so the receiver has the narrowed values last sent; its conversion leads from the sender's context to its own, and every node below a root has its converted world matrix if the hierarchies are good |
| StreamLaws.OrderSurvives | src/o3ds/model.cpp:361-377 | the component order survives the wire but for TOrientation |
| StreamLaws.MirrorMeaning | src/o3ds/model.cpp:342-440 | what a receiver has of a transform that was sent in full: all of it, narrowed |
| WireLaws.DataCarries | src/o3ds/model.cpp:342-394 | what is sent of a transform, number by number: each of translation, rotation, scale and matrices narrowed in its own place, name, parent, and the components by name |
| WireLaws.MirrorNumbers | src/o3ds/model.cpp:33-110 | what is received of it, number by number, each in its own place, never sent before |
| WireLaws.ParsedTwice | src/o3ds/model.cpp:396-440 | parsing again into the same transform adds components and matrices once more, and changes nothing else |
| StreamLaws.UpdatedMeaning | src/o3ds/model.cpp:526-556 | what an update does to each node of the receiver: the values that moved, and nothing else |
| WireLaws.UpdateCarries | src/o3ds/model.cpp:768-826 | an index is in an update exactly when the squared distance of value and lastSentValue over x, y and z is above the squared threshold, or the angle above the threshold; once, in order, with the narrowed numbers in their places |
| WireLaws.UpdateMarks | src/o3ds/model.cpp:786-809 | exactly those are marked as sent, by coordinates |
| WireLaws.UpdatedValues | src/o3ds/model.cpp:526-556 | whatever an update holds: each node takes the last value for it, and an index outside the list is for none |
| StreamLaws.KeyUpdateIdle | src/o3ds/model.cpp:1103-1127 | the update inside a keyframe changes nothing that the keyframe has not set |
| WireLaws.KeyframeCarries | src/o3ds/model.cpp:1081-1152 | a keyframe has the sender's own context and, by kind and in list order, each enabled subject in full with its update, and no others |
| WireLaws.DeltaCarries | src/o3ds/model.cpp:1154-1212 | an update packet has the sender's own context and, by kind and in list order, the update of each enabled subject, and no others |
| WireLaws.KeyframeMarks | src/o3ds/model.cpp:1103-1127 | after a keyframe the values last sent of every enabled subject are the true ones, and nothing else has changed |
| StreamLaws.KeyframeHeals | src/o3ds/model.cpp:1337-1422 | from any receiver that knows no uuid as another kind, one keyframe in which no two subjects share a uuid makes every enabled subject's transform list the sender's, and the same packet again changes nothing |
| SubjectIndex.HealedExactly | src/o3ds/model.h:477-513 | a subject is healed exactly when the receiver does not know its uuid as another kind, where that holds of the others |
| SubjectIndex.ClashGrows | src/o3ds/model.h:477-513 | where it does, each full packet adds one more subject that is never found, for any number of packets |
| FirstKeyframe.NewReceiver | src/o3ds/model.cpp:1337-1422 | a new receiver has after one keyframe exactly the subjects sent: performers, rigid bodies, cameras, each in the sender's order |
| DeltaRuns.ExpectedMeaning | src/o3ds/transform_component.h:87-89 | the receiver's expected values are the sender's narrowed lastSentValue, the keyframe's scale and structure |
| WireLaws.ExpectedNumbers | src/o3ds/transform_component.h:87-89 | the same number by number, each in its own place |
| DeltaRuns.KeyframeSyncs | src/o3ds/model.cpp:1081-1152 | a keyframe puts any receiver in step |
| DeltaRuns.DeltaKeepsSync | src/o3ds/model.cpp:768-826 | a delivered update keeps a receiver in step |
| DeltaRuns.DeltaSettles | src/o3ds/model.cpp:786-809 | after a keyframe or an update the squared distance of every true translation from the one last sent, over x, y and z, is at most the squared threshold, and the angle of every rotation at most the threshold |
| DeltaRuns.StepLinked | src/o3ds/model.cpp:768-826 | value changes, keyframes and updates keep sender and receiver linked |
| DeltaRuns.RunInSync | src/o3ds/model.cpp:768-826 | in every run from a keyframe on, the receiver has the narrowed values last sent, and right after a send no translation is further off than the threshold in distance and no rotation in angle |
| SubjectIndex.ApplyAllIndex | src/o3ds/model.h:477-513 | after any entries there is one subject per uuid, in the order first seen |
| SubjectIndex.AbsentUntouched | src/o3ds/model.cpp:1337-1422 | subjects that a packet does not name keep their place and state |
| SubjectIndex.ReceiveAllMeaning | src/o3ds/model.cpp:1316-1422 | a run of packets is the entries of those that were read, and the context after it is the first valid one |
| SubjectIndex.RunIndex | src/o3ds/model.cpp:1337-1422 | over every run of packets the list is the index of the uuids seen |
| SubjectIndex.RefusedLeaveNoTrace | src/o3ds/model.cpp:1316-1422 | over every run, leaving out the packets that are refused changes neither list nor context; none with a valid context is refused, and from a valid context on all others are |
| SubjectIndex.ContextFixed | src/o3ds/model.cpp:1316-1329 | a valid context never changes |
| PoseLaws.MirrorComputable | src/o3ds/model.cpp:285-292 | the receiver has the matrices its component order asks for exactly when the sender has |
| PoseLaws.SentIsComputable | src/o3ds/model.cpp:1337-1422 | parsing what another list serialized never indexes a matrix that is not there |
| PoseLaws.MirrorLocal | src/o3ds/model.cpp:265-294 | where a float holds every number exactly, the receiver composes the sender's local matrix |
| PoseLaws.KeptBridges | src/o3ds/model.cpp:1316-1329 | whatever is sent, the conversion kept leads from the sender's context to the receiver's valid one; a receiver without one ends with the sender's |
| PoseLaws.BridgeKeeps | src/o3ds/model.cpp:742-748 | such a conversion keeps every affine motion of the shared space, and leaves every matrix alone if the contexts are equal |
| PoseLaws.PoseArrives | src/o3ds/model.cpp:1337-1434 | after one keyframe, from any receiver and for all values, every anchored node's world matrix is the path product of the sender's narrowed local matrices moved from the sender's context into the receiver's: the same motion of the shared space, and the same matrix in equal contexts |
| PoseLaws.PoseInRun | src/o3ds/model.cpp:1215-1434 | at every point of a run from a keyframe on, every anchored node's world matrix is the path product of the values last sent, narrowed, moved from the sender's context into the receiver's |
| UdpFragment.SlotBounds | src/o3ds/udp_fragment.cpp:69-77 | the slots cover the payload without gaps; only the last is cut short |
| UdpFragment.UdpFragmenter.constructor | src/o3ds/udp_fragment.cpp:34-44 | the payload is copied and the number of fragments is the quotient rounded up |
| UdpFragment.UdpFragmenter.MakeFragment | src/o3ds/udp_fragment.cpp:51-79 | the datagram of a slot, for every payload and fragment size: header and bytes |
| UdpFragment.UdpCombiner.AddFragment | src/o3ds/udp_fragment.cpp:94-140 | every outcome of addFragment, in 32-bit arithmetic, with what it writes, what it marks as found even when it fails, and what it leaves |
| UdpFragment.UdpCombiner.CopyIn | src/o3ds/udp_fragment.cpp:136-136 | the bytes are written at their place and no others |
| UdpFragment.UdpCombiner.IsComplete | src/o3ds/udp_fragment.cpp:142-149 | true exactly when every slot is found |
| UdpFragment.UdpMapper.GetCombiner | src/o3ds/udp_fragment.cpp:151-162 | the id's combiner, or a new empty one; no other is touched |
| UdpFragment.UdpMapper.AddFragment | src/o3ds/udp_fragment.cpp:164-180 | exactly one combiner takes the datagram |
| UdpFragment.UdpMapper.FindComplete | src/o3ds/udp_fragment.cpp:184-186 | the least id whose message is complete, if there is one |
| UdpFragment.UdpMapper.EraseUpTo | src/o3ds/udp_fragment.cpp:190-198 | exactly the entries with larger ids are left |
| UdpFragment.UdpMapper.GetFrame | src/o3ds/udp_fragment.cpp:182-204 | the least complete message is appended and it and all before it erased; or nothing is complete and nothing changes |
| UdpRuns.FragmentHeader | src/o3ds/udp_fragment.cpp:59-77 | reading a made fragment gives back id, sequence number, sizes and bytes |
| UdpRuns.FragmentBytes | src/o3ds/udp_fragment.cpp:59-77 | the datagram byte by byte: four words at their offsets, then the bytes of the slot |
| UdpRuns.FragmentFits | src/o3ds/udp_fragment.cpp:96-136 | every made fragment passes the checks in every state of its message, and is never written past the buffer |
| UdpRuns.AddTracks | src/o3ds/udp_fragment.cpp:94-140 | taking a fragment, new or repeated, adds its slot and keeps the others |
| UdpRuns.CompleteMeaning | src/o3ds/udp_fragment.cpp:142-149 | complete exactly when every slot has arrived, and then the buffer is the payload |
| UdpRuns.AnyOrder | src/o3ds/udp_fragment.cpp:94-149 | the fragments of a message reassemble in any order with any repeats |
| UdpRuns.RunMirrors | src/o3ds/udp_fragment.cpp:151-204 | in every run over interleaved, reordered, repeated and lost fragments the combiners hold exactly what has arrived and waits, and the output is the released payloads |
| UdpRuns.PollInRun | src/o3ds/udp_fragment.cpp:182-204 | in every run a successful getFrame appends exactly the payload sent under the least complete id and leaves only larger ids |
| UdpRuns.ReleasedOnce | src/o3ds/udp_fragment.cpp:182-204 | if every fragment arrives at most once, every message is released at most once |
| UdpRuns.NothingElseLost | src/o3ds/udp_fragment.cpp:190-198 | a fragment that arrived waits, unless a message with an id at least as large has been released |
| UdpRuns.Session | src/o3ds/udp_fragment.cpp:34-204 | the same of the objects: fragments made by a fragmenter reach a mapper in any order, with repeats and losses, and it is polled in between; its combiners and the output are those of the run |
| UdpRuns.NoneLeftWaiting | plugins/unreal/Open3DStream/Source/Open3DStream/Private/UOpen3DServer.cpp:120-125 | polled once after each datagram, no complete message is left waiting |
| UdpRuns.Driven | plugins/unreal/Open3DStream/Source/Open3DStream/Private/UOpen3DServer.cpp:115-126 | driven by the callback, the mapper has handed over exactly the released payloads, one by one, and none of its combiners is left complete |
| UdpRuns.WholeIsReleased | plugins/unreal/Open3DStream/Source/Open3DStream/Private/UOpen3DServer.cpp:120-125 | a message all of whose fragments arrived was released or passed over for a larger id |
| UdpRuns.OnDatagram | plugins/unreal/Open3DStream/Source/Open3DStream/Private/UOpen3DServer.cpp:115-126 | the datagram callback is one addFragment and one getFrame into an empty buffer |
| UdpStrays.RefusedMeaning | src/o3ds/udp_fragment.cpp:94-134 | a datagram has 16 to 65511 bytes; where no header arithmetic wraps it is refused exactly when its slot starts behind the payload or the length differs, and one that is not the last must fill its slot |
| UdpStrays.RefusedEntry | src/o3ds/udp_fragment.cpp:164-180 | a datagram that is refused changes nothing exactly when its id is known; under a new id it leaves an empty entry that counts as complete |
| UdpStrays.StrayHandled | plugins/unreal/Open3DStream/Source/Open3DStream/Private/UOpen3DServer.cpp:115-126 | with no whole message waiting, an empty frame is handed over exactly after a datagram that a new combiner refuses under a new id, and all smaller ids are erased; after any other, what is handed over is a whole message of the datagram's id and size |
| UdpStrays.EmptyFrames | plugins/unreal/Open3DStream/Source/Open3DStream/Private/UOpen3DServer.cpp:115-126 | the same over every run on any datagrams, made by a sender or not |
| UdpStrays.StrayExample | src/o3ds/udp_fragment.cpp:94-180 | a bare header that is such a datagram |
| TcpFraming.WriteTcp | plugins/mobu/device.cpp:357-382 | a frame goes out, less the parts for which Send would block, and the frame's size is returned; or a prefix of that, the socket is closed and 0 is returned |
| TcpFraming.WrittenMeaning | src/o3ds/tcp.cpp:263-288 | if no Send would block, what is written is the whole frame, or a prefix of it; if one did and the packet is not empty, it is not the frame |
| TcpFraming.FrameBytes | plugins/mobu/device.cpp:366-370 | the frame byte by byte: four bytes, the text O3DS-START, the length, the packet |
| TcpFraming.AcceptedMeaning | plugins/unreal/Open3DStream/Source/Open3DStream/Private/UOpen3DServer.cpp:276-294 | a header is accepted exactly when its first byte is NUL and its size at most 51200 |
| TcpFraming.HeaderAccepted | plugins/unreal/Open3DStream/Source/Open3DStream/Private/UOpen3DServer.cpp:276-294 | a written header carries its size, and is accepted exactly when that is at most 51200 |
| TcpFraming.CorruptHeaderAccepted | plugins/unreal/Open3DStream/Source/Open3DStream/Private/UOpen3DServer.cpp:276-276 | a header of zeros is accepted, though it is not the magic |
| TcpFraming.O3DSServer.constructor | plugins/unreal/Open3DStream/Source/Open3DStream/Private/UOpen3DServer.cpp:16-26 | a server that looks for the magic, with nothing held |
| TcpFraming.O3DSServer.ReadTcp | plugins/unreal/Open3DStream/Source/Open3DStream/Private/UOpen3DServer.cpp:318-357 | the bytes read are appended to what is held, never beyond the length asked for; the buffer grows and keeps its contents |
| TcpFraming.O3DSServer.SyncPhase | plugins/unreal/Open3DStream/Source/Open3DStream/Private/UOpen3DServer.cpp:245-266 | SYNC is left only with exactly the 14-byte magic held, which is what was read last; otherwise what was read is a proper prefix of the magic and there is no more, or no prefix of it |
| TcpFraming.O3DSServer.HeaderPhase | plugins/unreal/Open3DStream/Source/Open3DStream/Private/UOpen3DServer.cpp:268-283 | waits for 18 bytes, then goes to DATA exactly when the comparison finds no difference |
| TcpFraming.O3DSServer.DataPhase | plugins/unreal/Open3DStream/Source/Open3DStream/Private/UOpen3DServer.cpp:285-312 | refuses a size over 51200, waits for the packet, or delivers exactly its bytes and returns to an empty HEADER |
| TcpFraming.O3DSServer.Pass | plugins/unreal/Open3DStream/Source/Open3DStream/Private/UOpen3DServer.cpp:241-313 | every pass of the outer loop reads something or is the last, and then nothing is left to read or a read failed; it delivers a frame, waits inside one, or refuses a header |
| TcpFraming.O3DSServer.Tick | plugins/unreal/Open3DStream/Source/Open3DStream/Private/UOpen3DServer.cpp:226-315 | it terminates on every input and reads all there is, unless a read fails or it ends in SYNC; from inside a frame it delivers what the bytes read mean, however they were split, and holds the rest; from SYNC, with the magic next, it does so too, and with less than the magic that is lost; a boundary lost on the way is found again only by a 14-byte magic, and then it delivers what the bytes from there mean |
| TcpRuns.PrefixScan | plugins/mobu/device.cpp:357-371 | every prefix of what was written means some of the first packets and a part of the next frame |
| TcpRuns.WireScan | plugins/unreal/Open3DStream/Source/Open3DStream/Private/UOpen3DServer.cpp:289-294 | all that was written is delivered exactly when no packet is over 51200 bytes |
| TcpRuns.OversizeExample | plugins/unreal/Open3DStream/Source/Open3DStream/Private/UOpen3DServer.cpp:289-294 | a packet of 51201 bytes is refused |
| TcpRuns.ScanCuts | plugins/unreal/Open3DStream/Source/Open3DStream/Private/UOpen3DServer.cpp:241-313 | reading can stop after any byte and go on: the meaning of a stream does not depend on where it was cut |
| TcpRuns.ArriveAndTick | plugins/unreal/Open3DStream/Source/Open3DStream/Private/UOpen3DServer.cpp:226-315 | bytes arrive and the server ticks: in step it stays in step; waiting in SYNC it gets in step if the bytes start with the magic, loses a part of the magic, and delivers nothing if they hold none |
| TcpRuns.FirstTick | plugins/unreal/Open3DStream/Source/Open3DStream/Private/UOpen3DServer.cpp:245-266 | from SYNC at a frame boundary, the tick keeps the boundary exactly when at least 14 bytes of the stream are there; fewer are lost and nothing is delivered |
| TcpRuns.SplitMagic | plugins/unreal/Open3DStream/Source/Open3DStream/Private/UOpen3DServer.cpp:245-266 | a frame whose magic comes in two ticks is lost, unless the packet itself holds a magic |
| TcpRuns.SmallPacketLost | plugins/unreal/Open3DStream/Source/Open3DStream/Private/UOpen3DServer.cpp:245-266 | a packet of fewer than 10 bytes has no room for a magic, and is always lost in this way |
| TcpRuns.Session | plugins/unreal/Open3DStream/Source/Open3DStream/Private/UOpen3DServer.cpp:226-357 | from a frame boundary, for all packets and all chunks: the packets delivered are a prefix of those written; their frames, the buffer and the unread bytes are what was sent; the state is never SYNC; unless a read fails nothing is left unread, and when all was sent all is delivered |
| TcpRuns.FreshSession | plugins/unreal/Open3DStream/Source/Open3DStream/Private/UOpen3DServer.cpp:137-357 | the same from the state of a new connection, if the first bytes to arrive hold the whole magic |
| BinaryStreams.WordRoundTrip | src/o3ds/binary_stream.cpp:77-82 | an integer is read back from its bytes |
| BinaryStreams.WordDigits | src/o3ds/binary_stream.cpp:77-82 | words of two and four bytes stand lower byte first |
| BinaryStreams.EncodingBytes | src/o3ds/binary_stream.cpp:114-146 | strings and buffers stand behind their lengths |
| Bytes.U32Digits | src/o3ds/udp_fragment.cpp:59-67 | the bytes of a header word are its digits in base 256, the lowest first |
| BinaryStreams.ReadBack | src/o3ds/binary_stream.cpp:61-146 | a pushed value is read back, with the cursor behind it, exactly when its length fits the prefix |
| BinaryStreams.LongTextExample | src/o3ds/binary_stream.cpp:121-146 | a string of 256 bytes is read back as the empty one |
| BinaryStreams.CutShort | src/o3ds/binary_stream.cpp:61-140 | a value cut short after any number of bytes throws, with the cursor at the end, or behind the length of a string |
| BinaryStreams.AllReadBack | src/o3ds/binary_stream.cpp:61-176 | any list of values is read back by gets of the same types, with the cursor at the end |
| BinaryStreams.Injective | src/o3ds/binary_stream.cpp:77-146 | the bytes determine the values |
| BinaryStreams.BinaryStream.Push | src/o3ds/binary_stream.cpp:77-146 | the encoding is appended |
| BinaryStreams.BinaryStream.PushAll | src/o3ds/binary_stream.cpp:185-192 | pushes in turn append the encodings in turn |
| BinaryStreams.BinaryStream.GetRaw | src/o3ds/binary_stream.cpp:61-75 | the bytes asked for, or an exception with the cursor at the end |
| BinaryStreams.BinaryStream.GetText | src/o3ds/binary_stream.cpp:121-140 | the string after its length, or an exception, and the cursor in each case |
| BinaryStreams.BinaryStream.GetBlob | src/o3ds/binary_stream.cpp:96-112 | the bytes after their length, or an exception, and the cursor in each case |
| BinaryStreams.BinaryStream.GetAll | src/o3ds/binary_stream.cpp:194-201 | gets in turn give the values of the bytes, up to the first exception |
| BinaryStreams.BinaryStream.Get | src/o3ds/binary_stream.cpp:61-176 | the value and cursor, or the exception and cursor, that the specification of the type gives |

## Left out

- Rounding, infinities and NaN, with the `allFinite` checks: arithmetic is over the reals, where every value is finite.
- FlatBuffers encoding and its verifier, the CRC and the flags word: a packet is a value, and a corrupt one does not arrive.
- The time envelope, timestamps and timecode, and the lens fields of cameras: field-by-field copying.
- `clearInactive` in `parse`, and `nullptr` or short buffers: they would only add easy cases.
- `TransformBuilder` and the subclasses it builds, `mReference` pointers and `operator==` of transforms and lists.
- Sockets beyond what `Send` and `Recv` promise: no timeouts; `malloc` does not fail; a `Recv` that does not fail gives at least one byte if one is there.
- The status messages of the TCP receiver (`OnState`, `mNoDataFlag`), and a missing socket (`mTcp` null).
- `swaporder`, `float` and `double` in the byte stream: `get` reads a `double` with the width of a `float`.
- `rotateX`, `rotateY`, `rotateZ`, `toQuaternion` and `angularDistance`: trigonometry; the distance is a parameter.
- The values that the MotionBuilder plugin puts into a traversed transform, host SDKs, user interfaces, and code that is not built.
- Model.Transform.constructor: the source leaves the `lastSentValue` of a new rotation uninitialised; the model has it zero. No packet that `serialize` writes lets it through.
- Model.Transform.Update: requires enough matrices for the order, which the source indexes without a check; `SentIsComputable` shows that parsing what a list sent keeps to it.
- Model.Subject.CalcMatrices: an error is a value with the index of the node, not a text with its name.
- Lists.SubjectList.Parse: the error texts are not modelled, nor the flags and world matrices below the roots when it fails. World matrices off the root paths are given for lists whose hosts have not changed them (`AllTidy`), as every list that has only been parsed into.
- Lists.SubjectList.FindSubjectByUuid: a cast to a subject class is a test of the subject's kind.
- UdpFragment.UdpCombiner.AddFragment: requires only that the call stays defined: no division by zero, no allocation of 2^31 flags or more, no access outside the flags or the buffer, none of which the source checks; every fragment that `makeFragment` makes keeps to it (`FragmentFits`).
- UdpFragment.UdpFragmenter.constructor: requires a fragment size above 0; the source divides by it.
- UdpFragment.UdpFragmenter.MakeFragment: requires a sequence number below the number of frames; the source does not check it, and above it reads past the payload.
- ListRuns.Session: the host's edits change values, not the structure or which subjects are enabled.
- UdpFragment.UdpMapper.EraseUpTo: the released id is copied before the loop, where the source compares with a reference into an entry that it erases.
- UdpRuns.RunMirrors: fragments are those of the messages sent, with distinct ids, as in `Session` and `Driven`; what other datagrams do is the subject of `UdpStrays`.
- DeltaRuns.RunInSync: for packets that arrive after the last keyframe, in order; what a lost update leaves behind is the subject of `KeyframeHeals`.
- PoseLaws.PoseInRun: like `RunInSync`, for packets that arrive after the last keyframe, in order.
- StreamLaws.KeyframeHeals: two enabled subjects of one uuid, which one receiver cannot tell apart, are not part of it; disabled ones may share any.
- Words are stored little-endian, as on the hosts that the plugins are built for.
