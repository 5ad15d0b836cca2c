# Proved models of FnQL

FnQL is a Quake III engine for Quake Live content with its tools. This project models parts of it in Dafny and
proves what they promise.

- **Area clustering** (`Cluster*.dfy`, `Clustering.dfy`, `InitClustering.dfy`). The bot library floods the graph of
  areas, where reachabilities are directed links and some areas are flagged as portals, into clusters. It gives
  each portal a front and a back cluster, builds a packed portal index, numbers the members of each cluster, and
  starts again after dropping a portal that does not separate two clusters. The arrays of the world are updated in
  place; proofs speak about snapshots of them. Main results: clusters are the components of plain areas, the loop
  ends because each failed round drops one portal that does not separate exactly two components, and the index
  and the numbers are dense. `ClusterMeaning.dfy` says the same in the fields of the world and fixes every number.
- **Portal candidates** (`FaceGraph.dfy`, `PortalCandidates.dfy`, `PortalCheck.dfy`, `FaceMeaning.dfy`). Which groups
  of areas are made portals: those closed in between two planes. `FaceMeaning.dfy` speaks of worlds where just the
  two areas beside a face list it, and says there what adjacency, floods and outer faces are without the code's
  own walk over faces.
- **Compaction** (`OptimizeCopy.dfy`, `Optimize.dfy`, `OptimizeMeaning.dfy`). The geometry is copied with ladder
  faces only and renumbered. Every area shows the ladders it showed, exactly if no number in use is 0. The vertex
  in slot 0 is taken for one without a slot, so it can be copied twice. The allocated vertex table is long enough
  exactly if nothing is used, or some vertex is unused, or the start of the first edge is met only once; a world of
  one triangular ladder overruns it.
- **AAS files** (`Bytes.dfy`, `AasTables.dfy`, `AasHeader.dfy`, `AasFile.dfy`, `AasLoad.dfy`, `AasDisk.dfy`).
  Fourteen tables behind a header that is covered by a fixed pattern. What one machine writes another one loads with
  the same values, whatever their byte orders. After a seek the loader no longer knows the place of the file, so a later
  lump can be read at the wrong place, and after a seek that failed a world without tables can count as loaded;
  neither can happen with written files. `AasDisk.dfy` gives every byte of a written header.
- **Alternative routes** (`AltRoute.dfy`, `FaceMeaning.dfy`). The mid-range areas are consumed one component at a
  time.
- **PNG** (`Png*.dfy`). Filters as in section 6 of RFC 2083, two scanline loops with one outcome, writing and
  reading, the strict reading of screenshots, and that what is accepted strictly is read leniently.
  `PngMeaning.dfy` and `PngBytes.dfy` give each pixel, row, chunk and failure in the bytes of the file.
- **Web packs** (`DataPack.dfy`, `WebPak*.dfy`). The pack that a script builds, the engine's inspection and path
  table, and what the engine recovers from a built pack. The script accepts paths of up to 255 characters and the
  engine reads fewer than 64, so a pack with a longer path is refused as a whole; and so is a pack of more than
  512 MiB, which the script builds all the same. These are the only packs it refuses, with those of unreadable
  characters or two dots in a path. `WebPakBytes.dfy` gives packs and manifests of both versions in bytes.
- **Changelog** (`Changelog.dfy`, `ChangelogMeaning.dfy`), **Mach-O** (`MachO.dfy`, `MachOFile.dfy`) and **PE**
  (`PeImports.dfy`, `PeBytes.dfy`): cleaning twice is cleaning once, load commands tile their table, and the
  imports found do not depend on reading functions.

Methods follow the loops and the recursion of the source; exits of the source that cannot be reached end in
`assert false`. `hide` keeps definitions out of proofs that do not need them.

## Model

| member | source | states |
|---|---|---|
| ClusterGraph.ClosedSetHoldsComponent | code/botlib/be_aas_cluster.cpp:180-245 | a set of plain areas that no reachability crosses holds the whole component of each of its areas |
| ClusterGraph.ThreeComponentsAreTooMany | code/botlib/be_aas_cluster.cpp:121-173 | a portal area fed by three different components does not separate exactly two |
| ClusterState.MarkKeepsInv | code/botlib/be_aas_cluster.cpp:208-213 | marking a plain area keeps the whole invariant between steps: tables, sides, segments and rooted, connected clusters |
| ClusterState.AttachKeepsInv | code/botlib/be_aas_cluster.cpp:143-171 | giving a portal its front or back cluster and entering it in the portal index keeps the invariant |
| ClusterState.SideCountBound | code/botlib/be_aas_cluster.cpp:121-173 | the portal index never holds more than two entries for a portal, so it cannot run out; two for each once every portal has both sides |
| ClusterState.SegmentsEndBy | code/botlib/be_aas_cluster.cpp:420-424 | the segments of older clusters end where later ones begin |
| ClusterFlood.UpdatePortal | code/botlib/be_aas_cluster.cpp:121-173 | attaches the portal to the cluster and only to it, or clears the flag of a portal area that does not separate two components; the index does not overflow and no other exit is taken |
| ClusterFlood.FullPortalIsBad | code/botlib/be_aas_cluster.cpp:143-159 | a portal with both sides taken by other clusters does not separate exactly two components |
| ClusterFlood.FloodClusterAreas | code/botlib/be_aas_cluster.cpp:180-245 | the recursive flood ends, keeps the invariant, only adds to the cluster, settles the entered area with all its targets, and fails only by dropping one bad portal; meeting an area of another cluster is impossible |
| ClusterFlood.TargetIsEnterable | code/botlib/be_aas_cluster.cpp:193-202 | a target of a clustered area is fresh or in the same cluster: the exit for a cluster that touches another one is never taken |
| ClusterFlood.OlderClusterHoldsComponent | code/botlib/be_aas_cluster.cpp:193-202 | a component that meets an older cluster lies inside it |
| ClusterFlood.LeaveStack | code/botlib/be_aas_cluster.cpp:233-244 | when an area leaves the stack of the flood all its targets are settled |
| ClusterFlood.GrowthKeepsClosed | code/botlib/be_aas_cluster.cpp:180-245 | flooding keeps every area off the stack closed under its reachabilities |
| ClusterFind.FindsCluster | code/botlib/be_aas_cluster.cpp:265-281 | the scan of an area finds a reachability into the cluster exactly if there is one |
| ClusterFind.FloodClusterAreasUsingReachabilities | code/botlib/be_aas_cluster.cpp:253-284 | the restarting scan ends, and afterwards no unclustered plain area with a reachability leads into the cluster |
| ClusterFind.OpenedFloods | code/botlib/be_aas_cluster.cpp:403-427 | an area that starts a cluster belongs to a component that no cluster holds yet |
| ClusterFind.NumberingCompletes | code/botlib/be_aas_cluster.cpp:253-284 | after flooding, scanning and numbering the clusters up to this one are complete again |
| ClusterNumber.NumberedIsDense | code/botlib/be_aas_cluster.cpp:320-387 | a numbered cluster maps its areas and portals one-to-one onto its numbers, those with reachabilities first |
| ClusterNumber.NumberAreas | code/botlib/be_aas_cluster.cpp:328-340 | one pass numbers the areas of one kind in order and counts them |
| ClusterNumber.NumberPortals | code/botlib/be_aas_cluster.cpp:341-358 | one pass numbers the portals of one kind in the slot of this cluster, front or back |
| ClusterNumber.NumberClusterAreas | code/botlib/be_aas_cluster.cpp:320-387 | the four passes number the cluster densely and change no other numbers |
| ClusterNumber.RenumberingKeepsOthers | code/botlib/be_aas_cluster.cpp:341-386 | numbering a cluster leaves the numbers in all other clusters alone |
| ClusterNumber.GrowthKeepsNumbers | code/botlib/be_aas_cluster.cpp:180-245 | flooding a later cluster leaves the numbers of older clusters alone |
| Clustering.RemoveClusterAreas | code/botlib/be_aas_cluster.cpp:64-72 | clears the cluster of every area but the dummy |
| Clustering.CreatePortals | code/botlib/be_aas_cluster.cpp:444-466 | makes exactly one portal for each flagged area, without sides; the table cannot run out |
| Clustering.FindClusters | code/botlib/be_aas_cluster.cpp:394-437 | finds all clusters of a round, or drops one bad portal and nothing else; the cluster table cannot run out |
| Clustering.TestPortals | code/botlib/be_aas_cluster.cpp:1367-1389 | succeeds without a change if every portal has two sides, and else drops one bad portal |
| Clustering.OneSidedPortalIsBad | code/botlib/be_aas_cluster.cpp:1375-1386 | a portal with a free side after all clusters are found does not separate exactly two components |
| Clustering.TwoSidedPortalIsGood | code/botlib/be_aas_cluster.cpp:1367-1389 | a portal with two sides separates exactly two components |
| Clustering.CompleteClusterHoldsComponent | code/botlib/be_aas_cluster.cpp:394-437 | a complete cluster holds the whole component of each of its areas |
| ClusterRounds.ClusterWorld | code/botlib/be_aas_cluster.cpp:1492-1511 | the retry loop ends: every failed round clears exactly one portal flag, of an area that does not separate two components; it leaves only with a success |
| ClusterRounds.SameClusterIffConnected | code/botlib/be_aas_cluster.cpp:180-284 | two plain areas share a cluster if and only if an undirected path of reachabilities through plain areas joins them |
| ClusterRounds.ClusteredIffLinked | code/botlib/be_aas_cluster.cpp:394-437 | a plain area is in a cluster if and only if it has a reachability or one from a plain area leads to it |
| ClusterRounds.PortalJoinsFeeders | code/botlib/be_aas_cluster.cpp:121-173 | a portal has two different clusters, exactly those with reachabilities into it, and its area carries its negated number |
| ClusterRounds.PortalAreasSeparateTwo | code/botlib/be_aas_cluster.cpp:1367-1389 | every area still flagged after success separates exactly two components |
| ClusterRounds.SegmentOfPlace | code/botlib/be_aas_cluster.cpp:420-424 | every place of the portal index lies in the segment of exactly one cluster |
| ClusterRounds.IndexIsExact | code/botlib/be_aas_cluster.cpp:121-173 | the segments tile the index, each lists its portals once, and the index holds 2 * (numportals - 1) entries |
| ClusterRounds.NumberingIsDense | code/botlib/be_aas_cluster.cpp:320-387 | after success every cluster is numbered densely |
| ClusterRounds.DropRunFlags | code/botlib/be_aas_cluster.cpp:1492-1511 | a sequence of rounds drops no area twice and leaves all other flags |
| ClusterRounds.LoopOutcome | code/botlib/be_aas_cluster.cpp:1492-1511 | after the loop the flags are the first ones less the dropped areas, and every flagged area separates two components |
| ClusterMeaning.GraphInTables | code/botlib/be_aas_cluster.cpp:180-245 | in the fields of the world: an area is a portal if and only if bit 3 of its contents is set, that bit is cleared in the dropped areas and nothing else, and the links are the targets in its stretch of the reachability table |
| ClusterMeaning.PortalSidesInOrder | code/botlib/be_aas_cluster.cpp:143-171 | portals are in the order of their areas, and the front cluster of each is the smaller of its two |
| ClusterMeaning.ClustersInOrder | code/botlib/be_aas_cluster.cpp:394-437 | clusters are numbered in the order of the first areas with reachabilities in them |
| ClusterMeaning.NumberedInOrder | code/botlib/be_aas_cluster.cpp:320-387 | the k-th member of a cluster has number k: areas with reachabilities by number, portals with reachabilities by place in the index, then the same without; each number in the slot of its side |
| ClusterMeaning.LinkedMembersFirst | code/botlib/be_aas_cluster.cpp:320-387 | a member has a number below numreachabilityareas if and only if it has at least one link, and numreachabilityareas is the number of such members |
| InitClustering.SetViewPortalsAsClusterPortals | code/botlib/be_aas_cluster.cpp:1435-1446 | every view portal becomes a cluster portal, nothing else changes |
| InitClustering.CreateViewPortals | code/botlib/be_aas_cluster.cpp:1417-1428 | every cluster portal becomes a view portal, nothing else changes |
| InitClustering.ChooseCandidates | code/botlib/be_aas_cluster.cpp:1468-1477 | before the rounds view and cluster portals are the same areas, no portal of either kind is lost, new ones are only in groups that passed the tests, and nothing but portal flags and clusters changes |
| InitClustering.InitClustering | code/botlib/be_aas_cluster.cpp:1453-1540 | changes nothing when not loaded or clustered and not forced; else clusters the world from the candidates and asks for the file to be saved; new candidates are only in groups that passed the tests, and areas, faces, edges, vertexes and reachabilities stay as they are |
| InitClustering.ViewPortalsRemember | code/botlib/be_aas_cluster.cpp:1417-1446 | afterwards the view portals are the candidates, the cluster portals those not dropped: a second call starts from at least the same candidates |
| InitClustering.PortalsSettle | code/botlib/be_aas_cluster.cpp:1453-1511 | a portal of either kind before the call stays one if and only if it is not dropped, and then separates two components |
| InitClustering.PortalBits | code/botlib/be_aas_cluster.cpp:1417-1511 | bits 3, 5 and 9 of the contents before the call, when the rounds start and afterwards; no other bit changes |
| PortalCandidates.ConnectAreas | code/botlib/be_aas_cluster.cpp:692-721 | the recursion ends and marks just the listed areas that unmarked listed areas reach through faces that are not solid |
| PortalCandidates.ConnectedAreas | code/botlib/be_aas_cluster.cpp:728-741 | true if and only if every area of a non-empty list without duplicates is reached from the first inside the list |
| PortalCandidates.GetAdjacentAreasWithLessPresenceTypes | code/botlib/be_aas_cluster.cpp:749-791 | the search ends by strict descent on presence bits and appends different areas only |
| PortalCandidates.WalkLessens | code/botlib/be_aas_cluster.cpp:768-771 | along a walk of the search presence bits only get lost |
| PortalCandidates.SearchListsLesser | code/botlib/be_aas_cluster.cpp:749-791 | the list has no duplicates, starts with the area, and all others are reached and have strictly fewer presence bits |
| PortalCandidates.SearchIsComplete | code/botlib/be_aas_cluster.cpp:749-791 | when the list is not full, it holds every area that the descent reaches |
| PortalCheck.SortFaces | code/botlib/be_aas_cluster.cpp:823-875 | goes through the outer faces of the group and sorts them by two planes, or stops at a portal behind a face or at a third plane; the lists of both sides together are no longer than the outer faces are many |
| PortalCheck.ShareEdge | code/botlib/be_aas_cluster.cpp:889-904 | true if and only if two faces have an edge in common |
| PortalCheck.SidesDecide | code/botlib/be_aas_cluster.cpp:876-906 | the remaining tests decide exactly whether the group is closed in between the two planes |
| PortalCheck.FindSurroundings | code/botlib/be_aas_cluster.cpp:820-821 | lists the area and what the descent around it reaches |
| PortalCheck.TestSurroundings | code/botlib/be_aas_cluster.cpp:823-906 | true if and only if two planes close the group in: every area has faces on both, the areas behind each are joined, no front face shares an edge with a back face, nothing behind is a portal |
| PortalCheck.CheckAreaForPossiblePortals | code/botlib/be_aas_cluster.cpp:798-917 | changes nothing unless the area is grounded, no portal yet, and its group is closed in; then flags exactly the group and returns its size |
| PortalCheck.FindPossiblePortals | code/botlib/be_aas_cluster.cpp:924-934 | every area has its turn, in order: if it is grounded and no portal by then, exactly its group is flagged when closed in; counts the areas so flagged, turn by turn |
| PortalCheck.FlaggedByTurns | code/botlib/be_aas_cluster.cpp:924-934 | afterwards an area is a portal if and only if it was one or is in a group that passed in some turn: what is flagged stays flagged |
| FaceMeaning.OpeningsShareOpenFace | code/botlib/be_aas_cluster.cpp:699-718 | where every face is listed by the areas on its two sides, an area lies behind an opening of another if and only if they are the two sides of a listed face without bit 0 |
| FaceMeaning.StepLosesPresence | code/botlib/be_aas_cluster.cpp:757-771 | the search steps through such a face to an area that has no presence bits but those it comes from, and not all of them |
| FaceMeaning.ListedAreas | code/botlib/be_aas_cluster.cpp:749-791 | at most 1024 different areas, the first one given; if there are fewer, exactly all that the search reaches |
| FaceMeaning.OuterFacesCloseIn | code/botlib/be_aas_cluster.cpp:823-848 | the faces that the test sorts are exactly the open faces of the group that no other area of it has, each with the area on its other side and the even number of its plane |
| FaceMeaning.CheckedAreas | code/botlib/be_aas_cluster.cpp:814-817 | areas are checked if and only if bit 3 of the contents is clear and bit 0 of the area flags is set |
| FaceMeaning.MarkedAreas | code/botlib/be_aas_cluster.cpp:907-914 | areas that pass get bits 3 and 5 of the contents |
| OptimizeCopy.VertexKnown | code/botlib/be_aas_optimize.cpp:104-110 | a vertex with a slot is found there |
| OptimizeCopy.VertexCopied | code/botlib/be_aas_optimize.cpp:109-116 | a vertex without a slot gets the next one; the first vertex gets slot 0 and so counts as without a slot |
| OptimizeCopy.EdgeAdded | code/botlib/be_aas_optimize.cpp:100-121 | a new edge has the ends of its original, and numbering stays one-to-one |
| OptimizeCopy.FaceAdded | code/botlib/be_aas_optimize.cpp:159-177 | a new face keeps its fields and its edges in order under their new names |
| OptimizeCopy.FaceListGoesOn | code/botlib/be_aas_optimize.cpp:199-210 | a ladder is added to the list of the area under its new name, other faces are passed over |
| OptimizeCopy.AreaAdded | code/botlib/be_aas_optimize.cpp:189-211 | a new area keeps its fields and earlier areas keep their lists |
| Optimize.Optimized.OptimizeVertex | code/botlib/be_aas_optimize.cpp:102-117 | copies a vertex once, but the first one a second time when it is met again |
| Optimize.Optimized.OptimizeEdge | code/botlib/be_aas_optimize.cpp:88-126 | copies an edge once and names it with the sign of its direction |
| Optimize.Optimized.OptimizeFace | code/botlib/be_aas_optimize.cpp:144-182 | drops a face that is no ladder, copies a ladder once with all its edges, and names it with the sign of its side |
| Optimize.Optimized.OptimizeArea | code/botlib/be_aas_optimize.cpp:189-211 | copies an area with the ladders on its list, in order |
| Optimize.RenameReachabilities | code/botlib/be_aas_optimize.cpp:290-308 | renames face and edge of every reachability but those of elevators, jump pads and bobbing platforms |
| Optimize.OptimizeStore | code/botlib/be_aas_optimize.cpp:243-273 | the copy takes the place of the world geometry |
| Optimize.Optimize | code/botlib/be_aas_optimize.cpp:280-312 | all real areas are copied, faces and edges in the order in which they are met, and all reachabilities renamed to match |
| OptimizeMeaning.AreaKeepsLadders | code/botlib/be_aas_optimize.cpp:88-211 | an area shows the ladders that it showed, in order, with side, plane, flags, areas and directed edges between the same points: if and only if no number in use is 0 |
| OptimizeMeaning.ZeroIsTurned | code/botlib/be_aas_optimize.cpp:125-181 | two small worlds, with a ladder and with an edge of number 0, whose ladder does not look the same afterwards |
| OptimizeMeaning.FaceKeepsView | code/botlib/be_aas_optimize.cpp:144-182 | a copied face looks the same if and only if its number and its edge numbers are not 0 |
| OptimizeMeaning.CopiedIsUsed | code/botlib/be_aas_optimize.cpp:133-211 | exactly the ladders of real areas are copied, and exactly their edges |
| OptimizeMeaning.FacesAndEdgesFit | code/botlib/be_aas_optimize.cpp:218-236 | the face table has room for the copy if and only if some face is not used, and so has the edge table |
| OptimizeMeaning.CopyBegins | code/botlib/be_aas_optimize.cpp:133-211 | the first edge copied is the first edge of the first ladder with edges, in the order of the areas and their lists |
| OptimizeMeaning.MetAgainIfUsed | code/botlib/be_aas_optimize.cpp:102-117 | every used vertex is met after the first one, except the start of the first edge when it has two ends and no other used edge touches its start |
| OptimizeMeaning.VertexesFit | code/botlib/be_aas_optimize.cpp:102-117 | the vertex table has room for the copy if and only if no edge is used, or some vertex is not used, or the start of the first edge is an end of no other used edge and not its own other end; it never lacks more than one place |
| OptimizeMeaning.ClosedWorldFits | code/botlib/be_aas_optimize.cpp:102-117 | where faces are closed polygons the vertex table has room if and only if nothing is used or some vertex is not |
| OptimizeMeaning.TriangleOverflows | code/botlib/be_aas_optimize.cpp:102-117 | a single triangular ladder on three vertexes needs four: the vertex table of the source is one too short |
| OptimizeMeaning.OneVertexTwice | code/botlib/be_aas_optimize.cpp:102-117 | the copy holds each vertex once, except the one in slot 0, which is there again if and only if it is met again |
| OptimizeMeaning.IndexesFit | code/botlib/be_aas_optimize.cpp:218-236 | when lists do not overlap the index tables have room for the copied lists |
| OptimizeMeaning.CodedStay | code/botlib/be_aas_optimize.cpp:290-299 | a reachability whose travel type is 11, 18 or 19 in its lower 24 bits stays as it is |
| OptimizeMeaning.ReachabilityFollows | code/botlib/be_aas_optimize.cpp:290-308 | any other reachability points to the copy of its face and edge, or to 0 if and only if there is none |
| OptimizeMeaning.ReachabilityRenumbered | code/botlib/be_aas_optimize.cpp:300-307 | its new numbers are the places of face and edge in the copy with the signs of the old ones, or 0 |
| OptimizeMeaning.FirstAreCleared | code/botlib/be_aas_optimize.cpp:218-236 | edge, face and area 0 of the copy are cleared |
| AltRoute.AltRouting.FloodCluster | code/botlib/be_aas_routealt.cpp:68-94 | the flood ends, appends and clears each area once, stays inside the mid-range areas and never overruns its list |
| AltRoute.ConsumedFits | code/botlib/be_aas_routealt.cpp:74-76 | the list of consumed areas has room for one more |
| AltRoute.AltRouting.TakeComponent | code/botlib/be_aas_routealt.cpp:162-168 | one flood takes exactly what its first area reaches among the areas left |
| AltRoute.AltRouting.FindMidRange | code/botlib/be_aas_routealt.cpp:125-160 | marks exactly the areas of the wanted kind with a reachability and travel times in range |
| AltRoute.PeeledAreComponents | code/botlib/be_aas_routealt.cpp:162-205 | with symmetric adjacency the floods return whole components of the first mid-range set, no two alike |
| FaceMeaning.NeighboursShareFace | code/botlib/be_aas_routealt.cpp:80-92 | where every face is listed by the areas on its two sides, two areas are neighbours if and only if they are the two sides of a listed face, the outside left aside |
| FaceMeaning.NeighboursAreSymmetric | code/botlib/be_aas_routealt.cpp:80-92 | there adjacency is symmetric |
| FaceMeaning.FloodsTakeComponents | code/botlib/be_aas_routealt.cpp:162-205 | there the floods return whole components of the first mid-range set, no two alike |
| FaceMeaning.SidesTakenTogether | code/botlib/be_aas_routealt.cpp:80-92 | there two mid-range areas on the two sides of a face are taken by the same flood |
| AltRoute.MidRangeIsOnTheWay | code/botlib/be_aas_routealt.cpp:125-160 | which areas are mid-range: wanted kind by bits 0 to 2, a reachability, at most 11 tenths of the direct time from the start and 8 tenths to the goal |
| AltRoute.CoveredIsClosed | code/botlib/be_aas_routealt.cpp:162-205 | what has been consumed is closed under adjacency within the first set |
| AltRoute.AltRouting.ClosestToMiddle | code/botlib/be_aas_routealt.cpp:176-188 | the first of the nearest areas of a list, or 0 if and only if none is nearer than 999999 |
| AltRoute.AltRouting.AlternativeRouteGoals | code/botlib/be_aas_routealt.cpp:101-211 | one goal for each component in order: the first area of the component nearest to its middle, with its place and times, or the dummy area if none is near enough; all components unless the limit is hit |
| Bytes.LittleLongTwice | code/botlib/be_aas_file.cpp:54-175 | swapping a word twice gives it back |
| Bytes.StoredLittle | code/botlib/be_aas_file.cpp:510-511 | a swapped word lies in memory lowest byte first on either machine |
| Bytes.XorTwice | code/botlib/be_aas_file.cpp:333-341 | exclusive or with a byte undoes itself |
| AasTables.SwappedTwice | code/botlib/be_aas_file.cpp:54-175 | swapping all fields of a table twice gives it back |
| AasTables.FileOrderKeepsValues | code/botlib/be_aas_file.cpp:54-175 | in file order a table means to a little-endian machine what it meant to its own |
| AasTables.ElementOfTable | code/botlib/be_aas_file.cpp:54-175 | a table of whole elements means a list of values for each of them, in order |
| AasTables.FieldOfElement | code/botlib/be_aas_file.cpp:54-175 | the values of an element are those of its fields, each behind the fields before it |
| AasTables.SwapElement | code/botlib/be_aas_file.cpp:58-67 | reverses every field of one element in place and nothing else |
| AasTables.SwapTable | code/botlib/be_aas_file.cpp:54-175 | puts a table into file order, or back, in place |
| AasHeader.ObfuscatedTwice | code/botlib/be_aas_file.cpp:333-341 | the pattern undoes itself |
| AasHeader.DData | code/botlib/be_aas_file.cpp:333-341 | covers or uncovers the bytes behind the first eight in place |
| AasHeader.PutWord | code/botlib/be_aas_file.cpp:508-511 | stores a word of the header lowest byte first |
| AasHeader.HeaderUncovered | code/botlib/be_aas_file.cpp:365-389 | uncovering the header of a written file gives back its words |
| AasHeader.HeaderTells | code/botlib/be_aas_file.cpp:546-592 | the header tells the checksum, and where each table starts and how long it is |
| AasFile.AasWorldTables.SwapAASData | code/botlib/be_aas_file.cpp:54-175 | puts all fourteen tables into file order |
| AasFile.WriteAASLump | code/botlib/be_aas_file.cpp:504-530 | appends a table and enters its place and length |
| AasFile.WriteAASFile | code/botlib/be_aas_file.cpp:538-596 | the file is the covered header and the tables in a row; the tables in memory end up in file order even when the file cannot be opened |
| AasLoad.LoadLump | code/botlib/be_aas_file.cpp:290-320 | reads a lump at the place of the file, after a seek if its offset is not the expected one |
| AasLoad.ReadAtOwnOffset | code/botlib/be_aas_file.cpp:301-318 | a lump is read at its own offset if and only if it is sought or no lump before it was |
| AasLoad.SoughtThenLost | code/botlib/be_aas_file.cpp:301-318 | a file that loads with success although its second table is read at 200 and not at 156, so as zeros |
| AasLoad.LoadLumps | code/botlib/be_aas_file.cpp:398-482 | reads every lump if each length is not negative and no seek goes before the file; else fails, unless the world is given up over a lump too short for an element with no data after it: then all tables are empty |
| AasLoad.GiveUp | code/botlib/be_aas_file.cpp:302-310 | after a seek that failed loading goes on if and only if the lump has no whole element and no later lump has data, and all tables are dropped |
| AasLoad.LoadedWithNothing | code/botlib/be_aas_file.cpp:302-310 | a file with a last lump that cannot be sought and is too short loads with success and leaves no tables |
| AasLoad.LoadAASFile | code/botlib/be_aas_file.cpp:349-495 | which files are accepted, with which error others are refused, and what the tables then hold |
| AasLoad.FileComesBack | code/botlib/be_aas_file.cpp:349-596 | a written file is accepted with its own checksum only, no lump is sought, and the lumps are the tables |
| AasLoad.WorldComesBack | code/botlib/be_aas_file.cpp:54-596 | a world written on one machine and loaded on another has the same field values; on the same machine the same bytes |
| Bytes.XorIsBitwise | code/botlib/be_aas_file.cpp:333-341 | exclusive or of bytes is that of their eight bits |
| AasDisk.HeaderOnDisk | code/botlib/be_aas_file.cpp:538-596 | every byte of the header of a written file: EAAS, 5, checksum and the places and lengths of the tables, lowest byte first, and byte 8 + i covered with 119 * i; 124 bytes and the tables |
| AasDisk.TableOnDisk | code/botlib/be_aas_file.cpp:504-530 | each table lies where the tables before it end |
| AasDisk.HeaderDecides | code/botlib/be_aas_file.cpp:361-397 | which headers are accepted with a checksum, byte by byte, and with which error others are refused |
| AasDisk.PlaceInHeader | code/botlib/be_aas_file.cpp:398-482 | where the place and length of each table lie in a covered header |
| AasDisk.CoveredChecksum | code/botlib/be_aas_file.cpp:382-397 | a version 5 header with bytes 1, 119, 238 and 101 from byte 8 on is accepted with checksum 1 and refused with any other |
| AasDisk.TablesMadeOf | code/botlib/be_aas_file.cpp:54-175 | the sizes of the elements of the fourteen tables, all of four-byte words but the end of a reachability |
| AasDisk.WordOnDisk | code/botlib/be_aas_file.cpp:54-175 | a machine with the highest byte first turns the four bytes of each word of each element in its place, and the two of the last number of a reachability |
| PngFilter.PaethIsNearest | scripts/rtx_runtime_smoke.py:343-352 | the predictor is the neighbour nearest to the estimate, ties in the order left, above, upper left |
| PngFilter.RestoredFiltered | scripts/vk_runtime_sweep.py:1673-1704 | restoring undoes each of the five filters for every row, prior row and pixel width |
| PngFilter.FilteredRestored | scripts/vk_runtime_sweep.py:1673-1704 | filtering undoes restoring |
| PngFilter.PngUnfilter | scripts/vk_runtime_sweep.py:1673-1704 | restores the row, in place in a copy; an unknown filter is refused unless the row is empty |
| PngScanlines.SourceRows | scripts/vk_runtime_sweep.py:1761-1777 | the rows, or the error for a missing row, a truncated row or an unknown filter |
| PngScanlines.ReconstructRows | scripts/rtx_runtime_smoke.py:499-531 | the separately written loop gives the same rows for every stream of the expected length |
| PngScanlines.ExactStreamFails | scripts/rtx_runtime_smoke.py:493-512 | a stream of the expected length fails if and only if it has an unknown filter |
| PngFile.PngFilterNoneRows | scripts/vk_runtime_sweep.py:1813-1820 | every row after a filter byte 0 |
| PngFile.WritePng | scripts/vk_runtime_sweep.py:1823-1848 | the file, or the error for dimensions, pixels or a size that does not fit |
| PngFile.CollectChunks | scripts/vk_runtime_sweep.py:1712-1741 | collects header, palette, transparency and data up to the end chunk |
| PngFile.ExpandRow | scripts/vk_runtime_sweep.py:1779-1808 | expands a row of any colour type to four bytes a pixel |
| PngRoundTrip.ReadPng | scripts/vk_runtime_sweep.py:1707-1810 | the image or the error for every file |
| PngRoundTrip.ReadFillsImage | scripts/vk_runtime_sweep.py:1779-1810 | an image that is read has exactly four bytes for each pixel |
| PngRoundTrip.ImageComesBack | scripts/vk_runtime_sweep.py:1707-1848 | reading a written image gives it back, for every size and content, if decompression inverts compression |
| PngMeaning.RestoredBytes | scripts/vk_runtime_sweep.py:1673-1704 | each byte of a restored row is the byte of the file plus the prediction: none, left, above, the mean rounded down, or the nearest of three |
| PngMeaning.ScanlineBytes | scripts/vk_runtime_sweep.py:1761-1777 | byte i of row y comes from the byte y * (stride + 1) + 1 + i of the stream, and its filter from the byte that begins the row |
| PngMeaning.ReadPixels | scripts/vk_runtime_sweep.py:1707-1810 | the size of an image that is read, and the four bytes of every pixel, for each of the color types 0, 2, 3, 4 and 6 |
| PngBytes.CollectSpelled | scripts/vk_runtime_sweep.py:1718-1741 | what each chunk adds, by the letters of its kind, and the fields of the header chunk by their places |
| PngBytes.ReadComplains | scripts/vk_runtime_sweep.py:1743-1759 | the complaint about a header: missing, depth, interlace, color type, in this order |
| PngMeaning.ScanlinesFail | scripts/vk_runtime_sweep.py:1761-1777 | rows are restored up to the first one that is missing, cut off or of an unknown filter, and that one decides the error |
| PngMeaning.RowsPixelsFail | scripts/vk_runtime_sweep.py:1790-1796 | rows become pixels unless they are of a palette that is missing or has no color for a sample |
| PngMeaning.ReadFails | scripts/vk_runtime_sweep.py:1761-1810 | a file with a good header whose data inflates is read if and only if every row is there with a known filter and no palette fails; else with which error it is refused |
| PngBytes.WrittenFile | scripts/vk_runtime_sweep.py:1823-1848 | a written file byte by byte: signature, and header, data and end chunk in their places with lengths and checksums |
| PngBytes.WrittenHeader | scripts/vk_runtime_sweep.py:1838-1844 | the header chunk holds width and height, highest byte first, depth 8, color type 6 and three zeros |
| PngBytes.UnfilteredRows | scripts/vk_runtime_sweep.py:1813-1820 | every row of the pixels behind a zero byte |
| PngCheck.ReadPieces | scripts/rtx_runtime_smoke.py:390-452 | accepts if and only if the file is the signature and chunks that tile it, header first and once, data together, an empty end last, sums right, at most 4096 |
| PngCheck.NoWayOn | scripts/rtx_runtime_smoke.py:398-441 | when no chunk that may follow lies at the offset, no list of chunks completes the file |
| PngCheck.DecodePng | scripts/rtx_runtime_smoke.py:387-531 | accepts if and only if the chunks are complete, the header is supported, and the data inflates to just the rows of the image with known filters |
| PngBytes.TilesInBytes | scripts/rtx_runtime_smoke.py:390-443 | a file is tiled by chunks if and only if it begins with the eight bytes of the signature, each chunk has its length, four letters, payload and checksum where the one before ends, and the last ends with the file |
| PngBytes.CompleteIsSpelled | scripts/rtx_runtime_smoke.py:396-450 | which chunks are complete, by the letters of their kinds |
| PngBytes.SoundInBytes | scripts/rtx_runtime_smoke.py:451-498 | which complete chunks are accepted: the fields of the header by their places, and just the rows of the image with filter bytes of at most 4 |
| PngBytes.DataJoins | scripts/rtx_runtime_smoke.py:427-431 | the data is that of the IDAT chunks one after another |
| PngAgree.CompleteCollected | scripts/vk_runtime_sweep.py:1716-1741 | the lenient reader collects the same header and data from complete chunks |
| PngAgree.AcceptedIsRead | scripts/rtx_runtime_smoke.py:387-531 | a file that the smoke script accepts is read by the sweep script, with the same size and the pixels of the same rows |
| WebPak.Pad | scripts/build_webpak.py:106-107 | appends zeros up to a multiple of four |
| WebPak.BuildQlManifest | scripts/build_webpak.py:86-111 | the manifest with its length entered, a multiple of four; fails only without resources or when a size does not fit |
| WebPak.EncodeWebPak | scripts/build_webpak.py:114-136 | the pack: header, entries, sentinel and payloads in a row; when it fails |
| WebPak.BuiltEntries | scripts/build_webpak.py:124-131 | entry i has number i and the offset of payload i, the sentinel the length of the pack |
| WebPak.BuiltPackIsPack | scripts/build_webpak.py:114-136 | a built pack passes the inspection of the engine |
| WebPak.PayloadIsSlice | scripts/build_webpak.py:127-136 | every payload is the slice between its offset and the next |
| DataPack.InspectDataPack | code/client/webpak_format.h:89-201 | accepts exactly the packs: header, growing identifiers, offsets in order inside the data, aliases in order to entries; else the error is that of the first entry or alias out of order |
| DataPack.InspectEntries | code/client/webpak_format.h:156-179 | the complaint about the first entry that is out of order, if there is one |
| DataPack.InspectAliases | code/client/webpak_format.h:181-195 | the complaint about the first alias that is out of order or names no entry, if there is one |
| DataPack.ResourcesAreApart | code/client/webpak_format.h:203-236 | every resource of a pack has bounds behind the tables, and begins where the one before ends |
| DataPack.FindEntryIndex | code/client/cl_webpak.cpp:150-203 | halving finds the entry of an identifier, else that of its alias, if and only if there is one |
| WebPakLoad.DecodePath | code/client/cl_webpak.cpp:285-312 | the path that 16-bit units spell, or none |
| WebPakLoad.ReadManifest | code/client/cl_webpak.cpp:314-419 | the table of a manifest, each path with the identifier in the next record |
| WebPakLoad.ReadResource | code/client/cl_webpak.cpp:205-281 | the slice of the resource of an identifier, if and only if there is one and it is at most 64 MiB |
| WebPakLoad.LoadFile | code/client/cl_webpak.cpp:421-490 | loads a table if and only if the file has at most 512 MiB and is a pack with a manifest that stands for the table |
| WebPakRoundTrip.RecordFields | scripts/build_webpak.py:90-107 | where the fields of each record lie in the manifest |
| WebPakRoundTrip.RecordReads | code/client/cl_webpak.cpp:354-395 | reading a record of a built manifest enters the path before it, if its own path can be read |
| WebPakRoundTrip.BuiltPackLoads | code/client/cl_webpak.cpp:421-490 | loading a built pack gives every path with its identifier if and only if the engine can read all the paths and the pack has at most 512 MiB, and is refused otherwise |
| WebPakRoundTrip.LargePackIsRefused | code/client/cl_webpak.cpp:443-448 | nine resources of 64 MiB with good paths are packed by the script, and the engine refuses the pack |
| WebPakRoundTrip.LongPathIsLost | scripts/build_webpak.py:27-48 | the script accepts a path of 64 letters, which the engine cannot read |
| WebPakRoundTrip.PayloadComesBack | code/client/cl_webpak.cpp:205-248 | the resource under the identifier of the table is the payload and nothing else |
| WebPakBytes.ManifestInBytes | scripts/build_webpak.py:86-111 | the length less four, 7, the records, 3 and the last identifier, lowest byte first |
| WebPakBytes.RecordInManifest | scripts/build_webpak.py:91-107 | the bytes of each record: 1 or 3, an identifier, the length of the path, its units and zeros up to a multiple of four |
| WebPakBytes.PackInBytes | scripts/build_webpak.py:124-136 | the bytes of a built pack: 4, the count, 0, and an entry of six bytes for each payload and the end |
| WebPakBytes.PacksInBytes | code/client/webpak_format.h:89-201 | a pack of version 4 or 5 in bytes: where its counts and tables lie, and what is in order |
| WebPakBytes.HeaderComplaint | code/client/webpak_format.h:101-140 | the complaint about a header that is too short, of another version, or without a good count |
| WebPakBytes.ResourceInBytes | code/client/webpak_format.h:203-236 | a resource is the slice between two offsets in the table |
| WebPakBytes.PathSpelled | code/client/cl_webpak.cpp:285-312 | a path is read if and only if its units spell one: backslashes turned, capital letters made small |
| WebPakBytes.RecordInBytes | code/client/cl_webpak.cpp:354-395 | what a record must be to be read, and that it enters the path before it; without one the manifest is refused |
| WebPakBytes.TrailerInBytes | code/client/cl_webpak.cpp:396-404 | the last path has the identifier of the trailer |
| WebPakBytes.TableInBytes | code/client/cl_webpak.cpp:327-348 | what a manifest and its table must be |
| WebPakBytes.EntryComplaint | code/client/webpak_format.h:156-179 | the complaint about the first entry that is out of order, in bytes: its identifier if that is not above the one before, else its offset |
| WebPakBytes.AliasComplaint | code/client/webpak_format.h:181-195 | the complaint about the first alias that is out of order, in bytes: its identifier, else the entry it names |
| WebPakBytes.FindsInBytes | code/client/cl_webpak.cpp:150-203 | what is found has the identifier, or no entry has it and an alias with it names what is found |
| WebPakBytes.FittingManifest | scripts/build_webpak.py:86-111 | for which resources a manifest can be built: some, and lengths that fit in four bytes |
| WebPakBytes.FittingPayloads | scripts/build_webpak.py:114-136 | for which payloads a pack can be built: 1 to 65535 of them, and less than 4 GiB with the tables |
| WebPakBytes.CheckedInParts | scripts/build_webpak.py:27-48 | which paths the script accepts: 1 to 255 characters, no slash in front, no name of two dots, no colon, backslash, zero or capital letter |
| Changelog.ChangeItems | scripts/changelog.py:287-312 | the first bullet of every key, with its category, in order |
| Changelog.RenderItems | scripts/changelog.py:315-333 | the items by category, with or without empty categories |
| Changelog.CleanSectionLines | scripts/changelog.py:340-344 | what cleaning makes of the lines |
| Changelog.ItemsAreClear | scripts/changelog.py:287-312 | items are normal, no placeholders, and have different keys |
| Changelog.RenderedCollected | scripts/changelog.py:287-333 | collecting rendered items gives the items, grouped by category |
| Changelog.CleanTwice | scripts/changelog.py:287-344 | cleaning clean lines gives what cleaning the first lines gives, for every pair of settings |
| ChangelogMeaning.ItemsAreFirsts | scripts/changelog.py:287-312 | the items are those of the first bullets of all keys, in order, each in the category of the heading it stands under, or in the one guessed for it |
| ChangelogMeaning.OpeningsAreFirsts | scripts/changelog.py:293-310 | which bullets become items: with or without a heading above, not empty, no placeholder, with a key that no bullet before has |
| ChangelogMeaning.CleanedLines | scripts/changelog.py:315-344 | the lines that come out: the blocks of the seven categories in order with an empty line between any two, or one bullet |
| MachO.VersionOrder | scripts/macos_bundle.py:154-165 | versions are in the order of the words that encode them, and 11.0 is 0xB0000 |
| MachO.WalkCommands | scripts/macos_bundle.py:207-249 | succeeds if and only if all commands are framed right and tile the table, and collects their targets |
| MachO.ValidateThinMacho | scripts/macos_bundle.py:168-269 | accepts if and only if the header fits, the commands tile the table, and all targets are one, from 1.0 to 11.0 |
| MachO.AcceptedTable | scripts/macos_bundle.py:207-269 | in an accepted file each command begins where the one before ends, and every target is at most 11.0 |
| MachOFile.BuiltIsAccepted | scripts/macos_bundle.py:166-269 | a file built from load commands is accepted if and only if it is for the processor, its commands take at most 16 MiB, every build version is for macOS, and one least system from 1.0 to 11.0 is told and no other |
| MachOFile.CommandTells | scripts/macos_bundle.py:229-249 | the least system of a build version, and not the kit it was built with, is what is told; and that of the older command |
| MachOFile.CommandInBytes | scripts/macos_bundle.py:209-245 | when a load command is framed right, in its bytes: size, kind, platform and tools |
| MachOFile.AcceptedInBytes | scripts/macos_bundle.py:168-269 | which files are accepted, in their bytes: header, commands that tile their table, and one least system from 1.0 to 11.0 that some command tells and no command contradicts |
| PeImports.FindOffset | scripts/windows_pe.py:128-137 | the offset of an address: the first section that maps it decides |
| PeImports.OffsetsAreInside | scripts/windows_pe.py:128-137 | every offset lies inside the data |
| PeImports.ReadNamedImports | scripts/windows_pe.py:141-152 | the names of a thunk table up to its end, or the failure |
| PeImports.ReadImports | scripts/windows_pe.py:154-184 | the libraries, and with functions the table of all of them; when it fails |
| PeImports.ParsePe | scripts/windows_pe.py:77-191 | with functions the answer about the libraries is the same as without whenever there is one |
| PeImports.TableHolds | scripts/windows_pe.py:175-181 | every function of every library is in the table under the folded name of its library |
| PeImports.TableHoldsOnly | scripts/windows_pe.py:175-181 | nothing else is in the table |
| PeBytes.HeadersInBytes | scripts/windows_pe.py:80-126 | where the headers keep machine, kind, width, sections and the import directory |
| PeBytes.AddressLeads | scripts/windows_pe.py:128-137 | the first section that maps an address decides where it leads, else the headers |
| PeBytes.NameInBytes | scripts/windows_pe.py:41-50 | a name is at most 511 bytes from 1 to 127 and a zero |
| PeBytes.ThunkInBytes | scripts/windows_pe.py:139-152 | an entry of a thunk table ends it, has no name, or has its name two bytes behind its address |
| PeBytes.DescriptorInBytes | scripts/windows_pe.py:163-182 | a descriptor ends the list, or tells the name of a library and its thunk table |
| PeBytes.TableInOrder | scripts/windows_pe.py:175-181 | the table has the functions of each library in the order of the descriptors under its folded name, and no other entries |
| PeBytes.FunctionsInThunks | scripts/windows_pe.py:176-181 | a library without a thunk table has no functions, any other those of its table |
| PeBytes.InfoInHeaders | scripts/windows_pe.py:186-191 | the answer has the machine and the library bit of the headers and the names of the libraries in order, or there is none |

## Left out

- Printing, logging, timing and freeing of memory; allocation is a fresh cleared array.
- The face flood that `nofaceflood` switches off (code/botlib/be_aas_cluster.cpp:56), code in comments or under
  `#if 0`, and the lists of teleporter portals.
- Worlds with more than 32768 areas: with fewer the portal table, its index and the cluster table cannot run out,
  so their limits never take effect. Beyond 65536 clusters the source would retry without dropping a portal.
- Clustering asks that reachabilities lie in their table and lead to areas of the world, and that area 0 is in no
  cluster, since the source never clears it.
- ClusterRounds.ClusterWorld: has the loop of the source without its setup, which InitClustering.InitClustering adds.
- PortalCheck.TestSurroundings: lists grow without the limit of 1024 entries, which the source does not check
  for the front and back faces; a group with at most 1024 outer faces stays within it (PortalCheck.SortFaces).
- PortalCandidates.ConnectedAreas: asks for a list without duplicates, as the callers of the source pass.
- The geometry of vectors, planes and distances: points are opaque words, the distance to the middle of a
  component is a parameter, and so are travel times.
- AltRoute.AltRouting.AlternativeRouteGoals: returns its goals as a list; for a limit of 0 or less the source writes one goal
  into the buffer all the same, and so does the model.
- Optimize.Optimize: output tables are lists that grow; OptimizeMeaning says when they fit what the source
  allocates.
- AAS tables are bytes in the order of the machine, with the field widths of each element; two padding bytes end
  a reachability. Floating-point fields are moved as four bytes. The clustering and compaction models hold the same
  tables as values, and nothing connects the two forms.
- AasLoad.LoadLumps: a negative length counts as an unreadable lump, where the engine's allocator gives up; data
  wanted after the file was closed counts as one too, where the engine reads through a closed handle. A seek fails
  for negative offsets only, as it does in a file of its own.
- AasFile.WriteAASFile: asks that the whole file is shorter than 2 GB, as the source does for each table.
- Compression and checksums of PNG files are parameters; the round trip uses that decompression inverts
  compression. A checksum over kind and payload is one function of both together.
- PngCheck.DecodePng: all reasons for refusing a file are one; luminance measures, file size and file times are
  not part of this model. A stream that is incomplete, has bytes after it or is too long is one that does not inflate.
- The overflow checks of the inspection of packs: sizes are unbounded here, so there is nothing for them to catch.
- WebPakLoad.ReadManifest: leaves the table unsorted, so duplicates are looked for among all pairs; looking a path
  up by halving is not part of this model.
- WebPak: paths are ASCII, as collecting demands; walking the source tree, names that are not collected and the
  refusal of payloads of more than 64 MiB are not part of this model.
- Changelog: patterns are taken as read, so a line is a heading, a bullet or another; normal form, key,
  placeholders and guessed categories are parameters with the laws in `Changelog.Sound`.
- MachO.ValidateThinMacho and PeImports.ParsePe: all errors are one.
- Routing, reachability, sampling, entities and drawing, and the scripts' launching, packaging and signing: not
  part of this model.
