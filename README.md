# tridot2d core, modelled in Dafny

This project models the engine core of tridot2d, a small C++ 2D game engine, and proves properties of the model. The core covers:

- physics: the body registry (`PhysicsSystem`), the static grid broad phase and the exhaustive broad phase, the axis-aligned box narrow phase (`Shape`), the Euler solver, and the rigid-body component;
- the grid component `GridT` / `MultiGridT`;
- the two entity systems (the core one and the legacy one under `systems/`) and the `EntityRef` back-reference registry;
- the string utilities (`strutil`) and `DateTime`;
- the input state machine, `ShaderState`, the shader loader's pure logic, the WAV header parser and stereo downmix of `Audio`, the asset caches, the particle pool, and the GL enum tables.

Each source file becomes one module:

| module | file | source |
|---|---|---|
| `Wrappers`, `Vec` | `wrappers.dfy`, `vec.dfy` | `Option`; `glm::vec2` over reals with C++ truncation |
| `Bodies` | `bodies.dfy` | `physics/Body.h` |
| `Shapes` | `shapes.dfy` | `physics/Shape.cpp` |
| `Solvers` | `solver.dfy` | `physics/Solver.cpp` |
| `Pairs` | `pairs.dfy` | the nested pair loops shared by both broad phases |
| `BroadPhases` | `broadphase.dfy` | `StaticGridBroadPhase` in `physics/BroadPhase.cpp` |
| `EachBroadPhases` | `eachbroadphase.dfy` | `EachBroadPhase` in `physics/BroadPhase.cpp` |
| `Physics` | `physics.dfy` | `physics/PhysicsSystem.cpp` |
| `RigidBodies` | `rigidbody.dfy` | `physics/RigidBody.h` |
| `Grids` | `gridt.dfy` | `components/GridT.h` |
| `EntityRefs`, `EntityLists` | `entityrefs.dfy`, `entitylists.dfy` | `EntityRef`, and the list of one entity system |
| `Entities` | `entities.dfy` | `core/EntitySystem.{h,cpp}` |
| `LegacyEntities` | `legacyentities.dfy` | `systems/EntitySystem.{h,cpp}` |
| `SwapPops` | `swappop.dfy` | swap-with-last-and-pop, used by particles and entity lists |
| `StrUtil` | `strutil.dfy` | `util/strutil.cpp` |
| `DateTimes` | `datetime.dfy` | `util/DateTime.cpp` |
| `Inputs` | `input.dfy` | `systems/Input.cpp` |
| `ShaderStates` | `shaderstate.dfy` | `render/ShaderState.h` |
| `Shaders` | `shader.dfy` | `render/Shader.cpp` |
| `Audio` | `audio.dfy` | `audio/Audio.cpp` |
| `Assets` | `assets.dfy` | `systems/AssetsManager.cpp` |
| `Particles` | `particles.dfy` | `particles/ParticleSystem.cpp` |
| `RenderEnums` | `enums.dfy` | `render/enum.cpp` |

Objects mutated in place are classes with the source's fields: the physics system, bodies, broad phases, grids, entity systems, entities, refs, the input state, the shader, the shader state, the audio buffer, the asset managers, the particle system and `DateTime`. Each method is proved against a pure function of the old state, and the source's promises are proved about those functions as lemmas. Pure code, such as the string utilities, the solver's formulas and the box test, is modelled as functions and lemmas.

The model uses these parameters for things outside the core:

- GL and OpenAL calls, such as shader compile and link results, uniform locations, buffer ids and whether a context exists;
- the file system, read as a map from path to contents;
- the window's key, button, cursor and scroll state;
- the clock.

Callbacks become a returned trace of calls. This covers `onCollide`, the entity and component `init`/`update` hooks, and `invalidate`/`delete`.

`render/Shader.h` and `systems/Input.h` are not part of this model. The defaults those classes start with are taken from their constructors in the `.cpp` files.

Where the code and its documentation disagree, the model follows the code:

- `DateTime::fromString` splits with `split`'s default `includeEmpty = false`, so "1..2.3" is read as three parts.
- The legacy `update` reads `entity->active`, though the legacy `Entity` declares no such member. The model gives the legacy entity an `active` flag that starts true.

## Model

| member | source | states |
|---|---|---|
| Bodies.Body.constructor | src/tridot2d/physics/Body.h:31-53 | addBody's new body: the index and shape addBody assigns; STATIC at the origin with unit scale and mass; zero rotation, velocity, angular velocity, force, drag, gravity and bounciness; no entity and no onCollide |
| Shapes.MinOfFour | src/tridot2d/physics/Shape.cpp:16 | The penetration, the min of the four reaches, is at most each reach and equals one of them |
| Shapes.ContactForLaws | src/tridot2d/physics/Shape.cpp:21-51 | The normal is the unit axis opposite the first reach (in the order right, left, top, bottom) equal to the penetration; each offset is the body's half size along that axis |
| Shapes.BoxContactLaws | src/tridot2d/physics/Shape.cpp:9-56 | checkBoxBox reports contact exactly when all four reaches are positive; the penetration is then positive, no larger than any reach, and the contact is the one ContactForLaws describes |
| Shapes.ManifoldOfLaws | src/tridot2d/physics/Shape.cpp:43-51 | The manifold's two sides name A and B, with opposite normals and equal penetrations |
| Shapes.OverlapSymmetric | src/tridot2d/physics/Shape.cpp:10-16 | Overlap and penetration do not depend on which box is A |
| Shapes.Check | src/tridot2d/physics/Shape.cpp:58-63 | Shape::check reports a manifold only for box against box, and that manifold names the two bodies |
| Shapes.CheckBoxes | src/tridot2d/physics/Shape.cpp:58-63 | Two boxes report contact exactly when they overlap, and the result is checkBoxBox's manifold |
| Solvers.FactorsLaws | src/tridot2d/physics/Solver.cpp:10-29 | Two STATIC bodies take no share; a STATIC body leaves the whole correction to the other; two movable bodies split it in inverse proportion to their masses, and the shares add up to one |
| Solvers.ResolvedLaws | src/tridot2d/physics/Solver.cpp:9-40 | resolve changes only positions and velocities; velocities change only while the bodies approach; a STATIC body is unchanged |
| Solvers.ZeroShare | src/tridot2d/physics/Solver.cpp:31-39 | A zero share moves neither position nor velocity |
| Solvers.ContactAxis | src/tridot2d/physics/Shape.cpp:16-40 | The contact checkBoxBox reports has a unit axis normal, and the penetration is the reach on that side |
| Solvers.CorrectionSeparates | src/tridot2d/physics/Solver.cpp:31-32 | Moving A along the normal and B against it, by shares of the penetration that add up to one, leaves boxes that no longer overlap |
| Solvers.ResolveSeparates | src/tridot2d/physics/Solver.cpp:9-40 | After resolve on a reported contact of two bodies that are not both STATIC, checkBoxBox reports no contact |
| Solvers.SharesSum | src/tridot2d/physics/Solver.cpp:10-29 | The two shares add up to one unless both bodies are STATIC |
| Solvers.SharesBalance | src/tridot2d/physics/Solver.cpp:24-28 | For two movable bodies, share times mass is the same on both sides |
| Solvers.PushesKeepMomentum | src/tridot2d/physics/Solver.cpp:34-39 | Opposite pushes whose shares balance the masses keep the total momentum |
| Solvers.PushesReverseApproach | src/tridot2d/physics/Solver.cpp:34-39 | Opposite pushes along a unit normal, with shares adding up to one, turn approach speed nv into -e * nv |
| Solvers.ResolveConservesMomentum | src/tridot2d/physics/Solver.cpp:9-40 | For two movable bodies with equal bounciness e >= 0 and a mirrored unit-normal manifold, resolve conserves momentum and the bodies no longer approach (nv becomes -e * nv) |
| Solvers.PreUpdatedLaws | src/tridot2d/physics/Solver.cpp:42-56 | preUpdate zeroes the force and changes only position, velocity, rotation and force. A DYNAMIC body accelerates by force minus drag plus gravity; a COLLIDER keeps its velocity. Non-STATIC bodies move by their new velocity and get rotation angular * dt. A STATIC body gets zero velocity and keeps its position and rotation |
| Solvers.PreUpdatedKeepsWeights | src/tridot2d/physics/Solver.cpp:42-56 | preUpdate keeps type and mass, so resolve stays defined |
| Solvers.EulerSolver.constructor | src/tridot2d/physics/Solver.h:14 | The default time step is 0.01 |
| Solvers.EulerSolver.Resolve | src/tridot2d/physics/Solver.cpp:9-40 | Each body of the manifold takes the position and velocity Resolved computes |
| Solvers.EulerSolver.PreUpdate | src/tridot2d/physics/Solver.cpp:42-56 | The body takes the state PreUpdated computes with the solver's time step |
| Vec.TruncBounds | src/tridot2d/physics/BroadPhase.cpp:99-119 | The float-to-int cast gives the integer within one of the real, on the side of zero |
| SwapPops.SwapPop | src/tridot2d/particles/ParticleSystem.cpp:21-22 | Swap-with-last-and-pop keeps the elements before i, puts the last one at i, keeps the rest, and is one shorter |
| SwapPops.SwapPopMultiset | src/tridot2d/core/EntitySystem.cpp:98-106 | Exactly the element at i leaves; all others stay as often as before |
| Pairs.TriangleCount | src/tridot2d/physics/BroadPhase.cpp:10-19 | The first r rows of the `for i; for j > i` loop hold each (i, j) with 0 <= i < r and i < j < n exactly once, and nothing else |
| Pairs.RectangleCount | src/tridot2d/physics/BroadPhase.cpp:121-138 | The two-container loop visits each (i, j) exactly once |
| Pairs.TriangleLength | src/tridot2d/physics/BroadPhase.cpp:10-19 | The first r rows hold r(2n-r-1)/2 pairs, so all n rows hold n(n-1)/2 |
| Pairs.TrianglePairs | src/tridot2d/physics/BroadPhase.cpp:121-138 | Over an enumeration of a set, the triangle visits every unordered pair of distinct members once |
| Pairs.RectanglePairs | src/tridot2d/physics/BroadPhase.cpp:121-138 | Over enumerations of two sets, the rectangle visits every cross pair once |
| Pairs.PickCount | src/tridot2d/physics/BroadPhase.cpp:121-138 | In repetition-free sequences, an element pair occurs as often as its index pair |
| Pairs.FlattenCount | src/tridot2d/physics/BroadPhase.cpp:71-97 | An element found once in each chunk labelled l, and in no other chunk, occurs in the concatenation as often as l occurs among the labels |
| Pairs.VisitTriangle | src/tridot2d/physics/BroadPhase.cpp:10-19 | The nested loop over i < j of one container yields exactly the picked triangle pairs, in loop order |
| Pairs.VisitRectangle | src/tridot2d/physics/BroadPhase.cpp:127-136 | The nested loop over two containers yields exactly the picked rectangle pairs, in loop order |
| Pairs.VisitRow | src/tridot2d/physics/BroadPhase.cpp:14-17 | The inner loop yields element i against elements lo and up |
| BroadPhases.GridCentred | src/tridot2d/physics/BroadPhase.cpp:25-35 | init's offset centres the grid on the origin |
| BroadPhases.AxisCell | src/tridot2d/physics/BroadPhase.cpp:99-119 | On one axis, getCell picks a cell exactly when that cell's half-open span holds the coordinate |
| BroadPhases.CellForLaws | src/tridot2d/physics/BroadPhase.cpp:99-119 | getCell never returns "no cell"; it returns cell (x, y) exactly when the position is in that cell's box, and the outside cell exactly when the position is off the grid |
| BroadPhases.CellFor | src/tridot2d/physics/BroadPhase.cpp:99-119 | Definition of getCell: the grid cell of the shifted, truncated position, or the outside cell; CellForLaws is its law |
| BroadPhases.CentreCell | src/tridot2d/physics/BroadPhase.cpp:76 | getCell on the centre that each() computes for (x, y) returns cell (x, y), or the outside cell when that cell does not exist |
| BroadPhases.MoveMembers | src/tridot2d/physics/BroadPhase.cpp:45-59 | A move takes the body out of the current cell and into the next, and leaves every other cell alone |
| BroadPhases.MoveIndexed | src/tridot2d/physics/BroadPhase.cpp:45-59 | After a move, every other body keeps its cell and index, and the moved body's entry names the new cell |
| BroadPhases.Enumerate | src/tridot2d/physics/BroadPhase.cpp:121-138 | Walking a std::set visits each member exactly once |
| BroadPhases.StaticGridBroadPhase.constructor | src/tridot2d/physics/BroadPhase.cpp:21-23 | The constructor is init on a fresh object |
| BroadPhases.StaticGridBroadPhase.Init | src/tridot2d/physics/BroadPhase.cpp:25-35 | init makes an empty grid with the given counts and cell size, centred on the origin, and an empty index table |
| BroadPhases.StaticGridBroadPhase.ClearBodies | src/tridot2d/physics/BroadPhase.cpp:37-43 | clearBodies empties every cell and the index table and keeps the grid's shape |
| BroadPhases.StaticGridBroadPhase.Padded | src/tridot2d/physics/BroadPhase.cpp:47-49 | The index table is padded with empty entries up to the body's index and keeps its old entries |
| BroadPhases.StaticGridBroadPhase.UpdateBody | src/tridot2d/physics/BroadPhase.cpp:45-59 | If getCell names a new cell, the body leaves the old cell (if any), joins the new one, and its entry is updated; otherwise no cell changes. The grid stays valid |
| BroadPhases.StaticGridBroadPhase.RemoveBody | src/tridot2d/physics/BroadPhase.cpp:61-69 | The body leaves the cell its entry names, if it has one; the index table is kept |
| BroadPhases.StaticGridBroadPhase.EachCell | src/tridot2d/physics/BroadPhase.cpp:121-138 | A cell with itself yields each two distinct members once, in one order or the other. Two different cells yield every cross pair once |
| BroadPhases.StaticGridBroadPhase.CentreCellOf | src/tridot2d/physics/BroadPhase.cpp:76 | getCell on each()'s centre for (x, y) returns cell (x, y), or the outside cell |
| BroadPhases.StaticGridBroadPhase.Each | src/tridot2d/physics/BroadPhase.cpp:71-97 | each() hands over: outside with itself first, then every linked cell pair once. Only pairs of distinct tracked bodies in linked cells appear. Two bodies sharing a cell appear once, in some order. Bodies in different cells appear once if their cells are linked, otherwise not at all |
| BroadPhases.StaticGridBroadPhase.EachCounts | src/tridot2d/physics/BroadPhase.cpp:71-97 | When every linked cell pair is visited once, the body pairs are counted as Each states |
| BroadPhases.StaticGridBroadPhase.ChunkSame | src/tridot2d/physics/BroadPhase.cpp:121-138 | Two bodies of cell c occur in a chunk once, in some order, when the chunk's cell pair is (c, c), and not otherwise |
| BroadPhases.StaticGridBroadPhase.ChunkCross | src/tridot2d/physics/BroadPhase.cpp:121-138 | A body of c with a body of d != c occurs in a chunk once when its cell pair is (c, d), and not otherwise |
| BroadPhases.NeighbourhoodDone | src/tridot2d/physics/BroadPhase.cpp:79-93 | The neighbourhood loops give exactly the cells Linked names: the grid neighbours, plus outside when a neighbour is off the grid |
| EachBroadPhases.EachBroadPhase.constructor | src/tridot2d/physics/BroadPhase.cpp:10-19 | The broad phase reads the given physics system |
| EachBroadPhases.EachBroadPhase.Each | src/tridot2d/physics/BroadPhase.cpp:10-19 | Every slot pair i < j below getBodyCount() is handed over exactly once, as getBody(i) and getBody(j), and no other pair; there are n(n-1)/2, in the row-major order of the nested loops |
| Physics.MovesCollidable | src/tridot2d/physics/PhysicsSystem.cpp:31-44 | Moving bodies keeps types, masses and shapes, so they stay collidable |
| Physics.Contacted | src/tridot2d/physics/PhysicsSystem.cpp:31-44 | A contact outcome changes only positions and velocities |
| Physics.Touch | src/tridot2d/physics/PhysicsSystem.cpp:31-44 | The collision callback on one pair changes only positions and velocities |
| Physics.Collide | src/tridot2d/physics/PhysicsSystem.cpp:31-44 | The callback folded over all pairs changes only positions and velocities |
| Physics.TouchLaws | src/tridot2d/physics/PhysicsSystem.cpp:31-44 | No contact: nothing changes and nothing is called. A contact calls the set callbacks (A's first) with the right body, other body and point. It resolves the pair unless a COLLIDER takes part, and no other slot changes |
| Physics.OnlyDynamicMoves | src/tridot2d/physics/PhysicsSystem.cpp:31-44 | Collisions never move a body that is not DYNAMIC |
| Physics.UnpairedStays | src/tridot2d/physics/PhysicsSystem.cpp:31-44 | A slot that no pair names keeps its state |
| Physics.NoCallbacksNoCalls | src/tridot2d/physics/PhysicsSystem.cpp:38-43 | Without any onCollide set, a step makes no calls |
| Physics.CollidePrefix | src/tridot2d/physics/PhysicsSystem.cpp:31-44 | Pair i is processed on the states the earlier pairs left |
| Physics.CountAt | src/tridot2d/physics/PhysicsSystem.cpp:31-44 | With no body in two slots, a body pair occurs as often as its slot pair |
| Physics.IntegratedCollidable | src/tridot2d/physics/PhysicsSystem.cpp:26-29 | Integration keeps the states collidable |
| Physics.SubSteps | src/tridot2d/physics/PhysicsSystem.cpp:17-21 | update makes subSteps equal steps of dt / subSteps, or none when subSteps is not positive |
| Physics.TotalRepeated | src/tridot2d/physics/PhysicsSystem.cpp:17-21 | k equal steps cover k times the step |
| Physics.SubStepsCover | src/tridot2d/physics/PhysicsSystem.cpp:17-21 | One update's sub-steps cover exactly dt, or 0 when subSteps is not positive |
| Physics.PhysicsSystem.constructor | src/tridot2d/physics/PhysicsSystem.cpp:9-15 | init makes a 50 x 50 grid of 2 x 2 cells, an Euler solver with step 0.01, a unit-box default shape, and no bodies |
| Physics.PhysicsSystem.GetBodyCount | src/tridot2d/physics/PhysicsSystem.cpp:73-75 | The count is never negative |
| Physics.PhysicsSystem.GetBody | src/tridot2d/physics/PhysicsSystem.cpp:77-82 | getBody returns null for an index outside the slots; otherwise it returns a live body |
| Physics.PhysicsSystem.GetBodyIndexed | src/tridot2d/physics/PhysicsSystem.cpp:77-82 | The body getBody returns carries the index asked for |
| Physics.PhysicsSystem.AddBody | src/tridot2d/physics/PhysicsSystem.cpp:51-57 | A fresh body with the default shape and the next index goes in a new last slot; the count grows by one and getBody finds the body |
| Physics.PhysicsSystem.RemoveBody | src/tridot2d/physics/PhysicsSystem.cpp:59-66 | The broad phase drops the body and its slot (if it has one) becomes null, after which the registry is no longer Ready. Its index becomes 0, and the count and all other slots stay |
| Physics.PhysicsSystem.ClearBodies | src/tridot2d/physics/PhysicsSystem.cpp:68-71 | The broad phase and the registry are emptied |
| Physics.PhysicsSystem.PlaceBody | src/tridot2d/physics/PhysicsSystem.cpp:27 | After updateBody the body is in its position's cell, and every other body keeps its cell |
| Physics.PhysicsSystem.Integrate | src/tridot2d/physics/PhysicsSystem.cpp:28 | preUpdate on one body, with the registry still valid |
| Physics.PhysicsSystem.Turn | src/tridot2d/physics/PhysicsSystem.cpp:26-29 | One turn of the first loop on a non-empty slot extends the prepared prefix by that slot, other slots untouched |
| Physics.PhysicsSystem.Prepare | src/tridot2d/physics/PhysicsSystem.cpp:26-29 | On a registry without empty slots, every body is placed by its old position and then integrated, and the registry is unchanged |
| Physics.PhysicsSystem.SlotStates | src/tridot2d/physics/PhysicsSystem.cpp:77-82 | Each slot's body state, and None exactly for the slots getBody returns null for |
| Physics.PhysicsSystem.PrepareSlots | src/tridot2d/physics/PhysicsSystem.cpp:26-29 | The corrected first loop takes the untouched registry to one whose every non-empty slot is placed and integrated |
| Physics.PhysicsSystem.PrepareLive | src/tridot2d/physics/PhysicsSystem.cpp:26-29 | Corrected first loop of step: empty slots are skipped, every body is placed by its old position and integrated, and the registry is unchanged |
| Physics.EmptiedSlotHasNull | src/tridot2d/physics/PhysicsSystem.cpp:59-66 | After removeBody empties a slot, the registry has a null slot that step's first loop, as written, dereferences |
| Physics.PhysicsSystem.TrackedSlots | src/tridot2d/physics/PhysicsSystem.cpp:26-30 | Once every body is in the grid, the grid's members are exactly the bodies, each in its slot's cell |
| Physics.PhysicsSystem.Detect | src/tridot2d/physics/PhysicsSystem.cpp:31 | each() hands over the body pairs of a slot schedule that meets the broad phase's promise |
| Physics.PhysicsSystem.SlotsCounted | src/tridot2d/physics/PhysicsSystem.cpp:31 | The broad phase's promise about body pairs, read as a promise about slot pairs |
| Physics.PhysicsSystem.Contact | src/tridot2d/physics/PhysicsSystem.cpp:32-43 | A contact resolves the pair unless one body is a COLLIDER; A's callback is called, then B's, each only if set |
| Physics.PhysicsSystem.CollidePair | src/tridot2d/physics/PhysicsSystem.cpp:31-44 | The callback on one pair ends in the states Touch computes and appends Touch's calls |
| Physics.PhysicsSystem.Handle | src/tridot2d/physics/PhysicsSystem.cpp:32-43 | The outcome of the shape test is carried out as Contacted says |
| Physics.PhysicsSystem.SlotsOf | src/tridot2d/physics/PhysicsSystem.cpp:31 | Each pair's slot indices |
| Physics.PhysicsSystem.CollideNext | src/tridot2d/physics/PhysicsSystem.cpp:31-44 | One turn of the pair loop extends the folded prefix by one pair |
| Physics.PhysicsSystem.CollideAll | src/tridot2d/physics/PhysicsSystem.cpp:31-44 | The pair loop leaves the states and calls that the fold Collide gives |
| Physics.PhysicsSystem.Respond | src/tridot2d/physics/PhysicsSystem.cpp:31-44 | The second half of step: the fold over the pairs; the registry, the grid and the slots stay |
| Physics.PhysicsSystem.Schedule | src/tridot2d/physics/PhysicsSystem.cpp:23-31 | The first half of step: dt is set; every body is placed by its old position and integrated; the grid hands over its schedule |
| Physics.PhysicsSystem.Step | src/tridot2d/physics/PhysicsSystem.cpp:23-49 | After a step the new states and calls are the fold Collide over the grid's schedule, on the integrated states. The grid holds the pre-integration cells and the registry is unchanged |
| Physics.PhysicsSystem.Update | src/tridot2d/physics/PhysicsSystem.cpp:17-21 | update takes the sub-steps SubSteps lists, and the registry is unchanged |
| RigidBodies.TypeFor | src/tridot2d/physics/RigidBody.h:34-39 | init picks STATIC when the mass is zero and DYNAMIC otherwise, never COLLIDER |
| RigidBodies.RigidBody.constructor | src/tridot2d/physics/RigidBody.h:19-21 | A new component stores its mass and has no body |
| RigidBodies.RigidBody.Init | src/tridot2d/physics/RigidBody.h:29-44 | init adds a fresh body, appended to the registry, with the component's mass, drag (1, 1), no bounce, the entity's pose and scale, and the type TypeFor picks. The body points back to the entity |
| RigidBodies.RigidBody.Setup | src/tridot2d/physics/RigidBody.h:31-43 | The body takes mass, drag, bounciness, type, pose and entity as init sets them |
| RigidBodies.RigidBody.Update | src/tridot2d/physics/RigidBody.h:46-50 | The entity takes the body's position and rotation, and the body takes the entity's scale |
| RigidBodies.RigidBody.Destroy | src/tridot2d/physics/RigidBody.h:23-27 | The destructor removes the body as removeBody does, and does nothing when there is none |
| Grids.IndexOfLaws | src/tridot2d/components/GridT.h:149-165 | getIndex is -1 or a valid index. It is valid exactly on the grid, and then names the one cell that holds the position |
| Grids.IndexOf | src/tridot2d/components/GridT.h:149-165 | Definition of getIndex: -1 left of or below the offset or past the last column or row, else row * countX + column; IndexOfLaws is its law |
| Grids.PositionOf | src/tridot2d/components/GridT.h:93-103 | Definition of getPosition: the centre of the cell of the shifted, truncated coordinates; PositionOfIsCentre is its law |
| Grids.UpdateCells | src/tridot2d/components/GridT.h:122-140 | Definition of update on the cells: a changed index empties the old cell and fills the new one; UpdateCellsLaws is its law |
| Grids.ResizeAsWritten | src/tridot2d/components/GridT.h:34-87 | Definition of resizeToFit as written, with the cellSize.x shift in y and the x + offsetX copy of findings 4 and 5 |
| Grids.PositionOfIsCentre | src/tridot2d/components/GridT.h:93-103 | getPosition returns the centre of the one cell that spans the position, and a centre maps to itself |
| Grids.SetCell | src/tridot2d/components/GridT.h:115-120 | set stores the value at a valid index and ignores an invalid one |
| Grids.UpdateCellsLaws | src/tridot2d/components/GridT.h:122-140 | update reports a move exactly when the indices differ. After a move the new cell holds the value, the old one is empty and no other cell changes; without a move nothing changes |
| Grids.InsertCell | src/tridot2d/components/GridT.h:171-176 | MultiGridT::set adds the value to the set of a valid cell |
| Grids.EraseCell | src/tridot2d/components/GridT.h:198-203 | MultiGridT::reset removes the value from the set of a valid cell |
| Grids.MultiUpdateTracks | src/tridot2d/components/GridT.h:178-196 | A value in its previous position's cell ends in its new position's cell and nowhere else; other values stay |
| Grids.AxisGrowthLaws | src/tridot2d/components/GridT.h:53-66 | Growing an axis never shrinks it and always brings the cell into range |
| Grids.Copy | src/tridot2d/components/GridT.h:68-81 | The copy has newX * newY cells |
| Grids.CopyAt | src/tridot2d/components/GridT.h:68-81 | New cell (x, y) takes old cell (x + dx, y + dy) if that exists, and is empty otherwise |
| Grids.Resized | src/tridot2d/components/GridT.h:34-87 | The corrected resizeToFit yields a well-shaped grid (countX * countY cells); its growth laws are the ResizedCovers and ResizedKeepsContents rows |
| Grids.GrownFor | src/tridot2d/components/GridT.h:44-86 | The corrected growth (the y shift by cellSize.y and the copy of old cell x - offsetX) yields a well-shaped grid of countX * countY cells |
| Grids.ResizeKeepsCoveredGrid | src/tridot2d/components/GridT.h:34-87 | Both the as-written and the corrected resize leave a grid alone when the position is on it, and never remove a column or row |
| Grids.ResizeRightUpKeepsCells | src/tridot2d/components/GridT.h:44-86 | As written, growing only right or up keeps the offset and every old cell in place |
| Grids.ResizeLeftMovesContents | src/tridot2d/components/GridT.h:68-81 | As written, growing left loses contents: [1, 2] becomes [2, 0, 0] and the point (0.5, 0.5) reads 0 instead of 1 |
| Grids.ResizeDownMissesPosition | src/tridot2d/components/GridT.h:39 | As written, cell size (1, 10) and y = -5 leave the grid unchanged, with the position still off the grid |
| Grids.ResizedCovers | src/tridot2d/components/GridT.h:34-87 | The corrected resize always brings the position onto the grid |
| Grids.ResizedKeepsContents | src/tridot2d/components/GridT.h:34-87 | The corrected resize keeps every point of the old grid reading what it read before |
| Grids.Grid.constructor | src/tridot2d/components/GridT.h:23 | A default grid is 0 by 0 at the origin with unit cells and no cells; its empty and outside values are the given one |
| Grids.Grid.Init | src/tridot2d/components/GridT.h:25-32 | init makes a fresh countX by countY grid of empty cells |
| Grids.Grid.Get | src/tridot2d/components/GridT.h:105-113 | get returns the cell holding the position, or the outside value |
| Grids.Grid.AssignThrough | src/tridot2d/components/GridT.h:105-113 | A write through the reference get returns lands in the holding cell on the grid and in outside off it, and the next get reads it back |
| Grids.Grid.Set | src/tridot2d/components/GridT.h:115-120 | set stores the value in the cell holding the position, if there is one |
| Grids.Grid.Update | src/tridot2d/components/GridT.h:122-140 | update moves the value from the previous position's cell to the new one, as UpdateCells says |
| Grids.Grid.Reset | src/tridot2d/components/GridT.h:142-147 | reset empties the cell holding the position, if there is one |
| Grids.Grid.ResizeToFit | src/tridot2d/components/GridT.h:34-87 | The grid becomes Resized of the old grid, under the corrected reading |
| Grids.Grid.FitCell | src/tridot2d/components/GridT.h:35-42 | Corrected: the cell of the position, one cell further back when it is left of or below the offset, shifting y by cellSize.y where the source shifts by cellSize.x |
| Grids.Grid.GrowToCell | src/tridot2d/components/GridT.h:44-86 | Corrected: the grid grows until the cell is on it, each old cell copied to its shifted place rather than read from x + offsetX |
| Grids.CopyCells | src/tridot2d/components/GridT.h:68-81 | Corrected: the copy loops build the cells Copy describes, new cell (x, y) taking old cell (x - offsetX, y - offsetY) where the source reads (x + offsetX, y + offsetY) |
| Grids.MultiGrid.constructor | src/tridot2d/components/GridT.h:168-169 | A default multi-grid wraps a fresh, valid, cell-less grid whose empty value is the empty set |
| Grids.MultiGrid.Set | src/tridot2d/components/GridT.h:171-176 | set adds the value to the set of the cell holding the position |
| Grids.MultiGrid.Update | src/tridot2d/components/GridT.h:178-196 | update moves the value from the previous cell's set to the new cell's set |
| Grids.MultiGrid.Reset | src/tridot2d/components/GridT.h:198-203 | reset removes the value from the set of the cell holding the position |
| EntityRefs.Rebind | src/tridot2d/core/EntitySystem.cpp:70-79 | set(ent) leaves the old entity's set and joins the new one's |
| EntityRefs.RebindLaws | src/tridot2d/core/EntitySystem.cpp:70-79 | Moving one ref keeps the registry consistent (each registered ref points to its key and each non-null ref is registered), and leaves every other ref's registration alone |
| EntityRefs.InvalidateLaws | src/tridot2d/core/EntitySystem.cpp:81-90 | The refs invalidate visits are exactly those that point at e. Afterwards none points at e and the registry is consistent |
| EntityRefs.Registry.constructor | src/tridot2d/core/EntitySystem.cpp:11 | The static map starts empty |
| EntityRefs.Ref.constructor | src/tridot2d/core/EntitySystem.cpp:13-40 | A ref starts null and then calls set(ent) |
| EntityRefs.Ref.Set | src/tridot2d/core/EntitySystem.cpp:70-79 | The ref points at ent, and the map is Rebind of the old map |
| EntityRefs.Ref.Invalidate | src/tridot2d/core/EntitySystem.cpp:81-90 | Every ref registered under ent that pointed at it becomes null; the key is erased |
| EntityLists.RemoveOne | src/tridot2d/core/EntitySystem.cpp:98-106 | One removal keeps every entity's index key, never grows the list, and adds no entity |
| EntityLists.RemoveAll | src/tridot2d/core/EntitySystem.cpp:97-108 | The removal loop keeps every index key, never grows the list, and adds no entity |
| EntityLists.AddAll | src/tridot2d/core/EntitySystem.cpp:110-115 | The addition loop appends the queue in order and gives every entity an index |
| EntityLists.Listed | src/tridot2d/core/EntitySystem.cpp:97-108 | The queued entities that are listed, no more and no fewer |
| EntityLists.Selves | src/tridot2d/core/EntitySystem.cpp:135-153 | Each entity, removed as itself |
| EntityLists.RemoveOneLaws | src/tridot2d/core/EntitySystem.cpp:98-106 | Removing a listed entity deletes that entity and nothing else, and the list stays consistent. An index outside the list is ignored. Only the moved entity's index changes |
| EntityLists.RemoveStep | src/tridot2d/core/EntitySystem.cpp:97-108 | One more clean removal extends the record by that entity, if it is listed |
| EntityLists.RemoveAllLaws | src/tridot2d/core/EntitySystem.cpp:97-108 | A clean queue removes exactly its listed entities, in queue order. Each is invalidated and deleted as itself; the list stays consistent and unlisted entities keep their index |
| EntityLists.Applied | src/tridot2d/core/EntitySystem.cpp:97-115 | Definition of update's two queue loops: RemoveAll of the pending removals, then AddAll of the pending additions; UpdateKeepsIndexed is its law |
| EntityLists.AddAllLaws | src/tridot2d/core/EntitySystem.cpp:110-115 | Appending distinct new entities keeps the list consistent; the k-th new entity gets index size + k; other indices stay |
| EntityLists.UpdateKeepsIndexed | src/tridot2d/core/EntitySystem.cpp:96-115 | A clean removal queue and distinct new entities leave the list consistent after update's queue loops |
| Entities.Entity.constructor | src/tridot2d/core/EntitySystem.h:35-36 | A new entity is active, has no components, and has index -1 |
| Entities.RemovalCallsLaws | src/tridot2d/core/EntitySystem.cpp:98-106 | Removal k calls invalidate at 2k and delete at 2k+1 |
| Entities.InitCallsLaws | src/tridot2d/core/EntitySystem.cpp:110-115 | init is called once per queued addition, in queue order |
| Entities.ComponentCallsLaws | src/tridot2d/core/EntitySystem.cpp:120-124 | Exactly the non-null components are updated, each with its owner |
| Entities.UpdateCallsLaws | src/tridot2d/core/EntitySystem.cpp:117-128 | Only listed active entities are updated, once per non-null component and once themselves; nothing else is called |
| Entities.PendingRemovalsIgnored | src/tridot2d/core/EntitySystem.cpp:97-108 | Because the index starts at -1, removing an entity still waiting to be added does nothing; exactly the listed queued entities are removed |
| Entities.Fields | src/tridot2d/core/EntitySystem.h:68 | The index field of each of a set of entities |
| Entities.EntitySystem.constructor | src/tridot2d/core/EntitySystem.h:98-100 | All three lists start empty |
| Entities.EntitySystem.RemoveEntity | src/tridot2d/core/EntitySystem.cpp:131-133 | removeEntity only queues the entity |
| Entities.EntitySystem.AddEntity | src/tridot2d/core/EntitySystem.h:108-112 | addEntity(T*) queues the entity and returns it |
| Entities.EntitySystem.AddNewEntity | src/tridot2d/core/EntitySystem.h:114-119 | addEntity(const T&) queues a fresh entity with index -1 |
| Entities.EntitySystem.Update | src/tridot2d/core/EntitySystem.cpp:96-129 | The list and indices are Applied of the queues. Calls are removals, then inits, then updates, and the queues end empty. A consistent list with clean queues stays consistent |
| Entities.EntitySystem.ApplyQueues | src/tridot2d/core/EntitySystem.cpp:97-115 | The removal loop, then the addition loop, each clearing its queue |
| Entities.EntitySystem.ApplyRemovals | src/tridot2d/core/EntitySystem.cpp:97-108 | The removal loop computes RemoveAll, and the queue is cleared |
| Entities.EntitySystem.RemoveQueued | src/tridot2d/core/EntitySystem.cpp:98-106 | One removal computes RemoveOne |
| Entities.EntitySystem.ApplyAdditions | src/tridot2d/core/EntitySystem.cpp:110-115 | The addition loop computes AddAll, and the queue is cleared |
| Entities.EntitySystem.AddQueued | src/tridot2d/core/EntitySystem.cpp:111-113 | The entity gets the current size as its index and is appended |
| Entities.EntitySystem.UpdateAll | src/tridot2d/core/EntitySystem.cpp:117-128 | The update loop makes the calls UpdateCalls lists |
| Entities.EntitySystem.ComponentUpdates | src/tridot2d/core/EntitySystem.cpp:120-124 | The component loop makes the calls ComponentCalls lists |
| Entities.EntitySystem.Clear | src/tridot2d/core/EntitySystem.cpp:135-153 | Every listed entity, then every pending addition, is invalidated and deleted; all three lists end empty |
| Entities.EntitySystem.Dispose | src/tridot2d/core/EntitySystem.cpp:136-143 | Each entity is invalidated, then deleted |
| LegacyEntities.Entity.constructor | src/tridot2d/systems/EntitySystem.h:30 | A new legacy entity takes the given position, scale and rotation, is active, has no components and index 0 |
| LegacyEntities.Entity.UpdateComponents | src/tridot2d/systems/EntitySystem.cpp:13-19 | Every non-null component is updated in order, with this entity and deltaTime |
| LegacyEntities.RemovalCallsLaws | src/tridot2d/systems/EntitySystem.cpp:102-110 | Removal k calls invalidate at 2k and delete at 2k+1 |
| LegacyEntities.InitCallsLaws | src/tridot2d/systems/EntitySystem.cpp:114-119 | init is called once per queued addition, in queue order |
| LegacyEntities.ComponentCallsLaws | src/tridot2d/systems/EntitySystem.cpp:13-19 | Exactly the non-null components are updated, with the owner and the frame's deltaTime |
| LegacyEntities.UpdateCallsLaws | src/tridot2d/systems/EntitySystem.cpp:121-128 | Only listed active entities are updated, and every hook gets the frame's deltaTime |
| LegacyEntities.PendingRemovalDeletesFirst | src/tridot2d/systems/EntitySystem.cpp:101-112 | Because the index starts at 0, removing a pending entity invalidates it but deletes entities[0], which leaves the list |
| LegacyEntities.Fields | src/tridot2d/systems/EntitySystem.h:24 | The index field of each of a set of entities |
| LegacyEntities.EntitySystem.constructor | src/tridot2d/systems/EntitySystem.h:60-63 | All three lists start empty |
| LegacyEntities.EntitySystem.RemoveEntity | src/tridot2d/systems/EntitySystem.cpp:131-133 | removeEntity only queues the entity |
| LegacyEntities.EntitySystem.AddEntity | src/tridot2d/systems/EntitySystem.h:67-71 | addEntity(T*) queues the entity and returns it |
| LegacyEntities.EntitySystem.AddNewEntity | src/tridot2d/systems/EntitySystem.h:73-78 | addEntity(const T&) queues a fresh entity with index 0 |
| LegacyEntities.EntitySystem.Update | src/tridot2d/systems/EntitySystem.cpp:100-129 | The list and indices are Applied of the queues. Calls are removals, then inits, then updates with deltaTime, and the queues end empty |
| LegacyEntities.EntitySystem.ApplyQueues | src/tridot2d/systems/EntitySystem.cpp:101-119 | The removal loop, then the addition loop |
| LegacyEntities.EntitySystem.ApplyRemovals | src/tridot2d/systems/EntitySystem.cpp:101-112 | The removal loop computes RemoveAll |
| LegacyEntities.EntitySystem.RemoveQueued | src/tridot2d/systems/EntitySystem.cpp:102-110 | One removal computes RemoveOne |
| LegacyEntities.EntitySystem.ApplyAdditions | src/tridot2d/systems/EntitySystem.cpp:114-119 | The addition loop computes AddAll |
| LegacyEntities.EntitySystem.AddQueued | src/tridot2d/systems/EntitySystem.cpp:115-117 | The entity gets the current size as its index and is appended |
| LegacyEntities.EntitySystem.UpdateAll | src/tridot2d/systems/EntitySystem.cpp:121-128 | The update loop makes the calls UpdateCalls lists |
| LegacyEntities.EntitySystem.Clear | src/tridot2d/systems/EntitySystem.cpp:135-144 | Every listed entity is invalidated and deleted and the list is emptied; the queues stay |
| LegacyEntities.EntitySystem.Dispose | src/tridot2d/systems/EntitySystem.cpp:136-143 | Each entity is invalidated, then deleted |
| StrUtil.FirstMatchFrom | src/tridot2d/util/strutil.cpp:50-79 | The scanner's first match ends after the start and within the string |
| StrUtil.SplitSpec | src/tridot2d/util/strutil.cpp:50-79 | Definition of split: the text between the scanner's delimiter matches, a half-matched delimiter folded back into the token, empty parts dropped unless includeEmpty; an empty delimiter gives CharParts |
| StrUtil.Join | src/tridot2d/util/strutil.cpp:91-100 | Definition of join: the elements with the delimiter between consecutive ones; JoinLength and JoinSplitRoundTrip are its laws |
| StrUtil.Replace | src/tridot2d/util/strutil.cpp:102-104 | Definition of replace: join(split(s, search, true), replacement); ReplaceBySelf, ReplaceSingle and ReplaceAbsent are its laws |
| StrUtil.TrimFrontSpec | src/tridot2d/util/strutil.cpp:135-163 | Definition of trimFront: cut after the first recognised prefix, else keep s or, on request, ""; TrimFrontMeaning is its law |
| StrUtil.TrimBackSpec | src/tridot2d/util/strutil.cpp:165-190 | Definition of trimBack: cut where the first recognised suffix starts, unless it starts at 0; TrimBackMeaning is its law |
| StrUtil.SubStringSpec | src/tridot2d/util/strutil.cpp:192-197 | Definition of subString: trimBack of trimFront with trimAllIfNotFound; SubStringIsInfix is its law |
| StrUtil.Decimal | src/tridot2d/util/DateTime.cpp:188 | Definition of std::to_string of an int: a '-' for negatives, then the digits without leading zeros; NatDecimalDigits is its law |
| StrUtil.ToInt | src/tridot2d/util/strutil.cpp:250-267 | Definition of toInt: std::stoi's value, or the default when stoi throws; ParseAllDigits and ParseDecimal are its laws |
| StrUtil.HexDigits | src/tridot2d/util/strutil.cpp:309-316 | Definition of intToHex: upper-case hex digits, most significant first, none for 0; HexDigitsShape is its law |
| StrUtil.FirstMatchSound | src/tridot2d/util/strutil.cpp:50-79 | A match the scanner recognises really is an occurrence of the delimiter |
| StrUtil.FirstMatchFromNoneIffNoMatches | src/tridot2d/util/strutil.cpp:50-79 | The scanner finds no first match exactly when it counts no matches |
| StrUtil.ScannerMissesOverlappingStart | src/tridot2d/util/strutil.cpp:50-79 | The scanner does not backtrack: "ab" occurs in "aab" but is not recognised |
| StrUtil.JoinLength | src/tridot2d/util/strutil.cpp:91-100 | join puts n - 1 delimiters between n elements |
| StrUtil.JoinStrings | src/tridot2d/util/strutil.cpp:91-100 | The join loop computes Join |
| StrUtil.CharParts | src/tridot2d/util/strutil.cpp:52-56 | An empty delimiter gives one part per character |
| StrUtil.Split | src/tridot2d/util/strutil.cpp:50-79 | The split loop computes SplitSpec |
| StrUtil.JoinSplitRoundTrip | src/tridot2d/util/strutil.cpp:50-100 | Joining split(s, d, true) with d gives back s |
| StrUtil.SplitCount | src/tridot2d/util/strutil.cpp:50-79 | With empty parts kept, there is one more part than recognised matches |
| StrUtil.SplitNoEmptyParts | src/tridot2d/util/strutil.cpp:50-79 | Without includeEmpty, no part is empty |
| StrUtil.SplitDoesNotBacktrack | src/tridot2d/util/strutil.cpp:50-79 | Splitting "aab" on "ab" gives ["aab"] |
| StrUtil.SplitMany | src/tridot2d/util/strutil.cpp:81-89 | The list overload concatenates each string's parts, in order |
| StrUtil.SplitJoinSingleChar | src/tridot2d/util/strutil.cpp:50-100 | Splitting on a character undoes joining with it, for parts that do not contain it: all parts with includeEmpty, only non-empty ones without |
| StrUtil.SplitThree | src/tridot2d/util/strutil.cpp:50-79 | Three non-empty texts joined by a character they lack split back into the three texts |
| StrUtil.ReplaceBySelf | src/tridot2d/util/strutil.cpp:102-104 | Replacing a string by itself changes nothing |
| StrUtil.ReplaceSingle | src/tridot2d/util/strutil.cpp:102-104 | One occurrence, in text that never starts a match, is substituted |
| StrUtil.ReplaceAbsent | src/tridot2d/util/strutil.cpp:102-104 | With no match, replace changes nothing |
| StrUtil.Match | src/tridot2d/util/strutil.cpp:117-133 | match returns the length of the longest common prefix |
| StrUtil.TrimFrontMeaning | src/tridot2d/util/strutil.cpp:135-163 | trimFront keeps a suffix of s that follows the first recognised prefix. With no match it keeps s, or "" when trimAllIfNotFound |
| StrUtil.TrimBackMeaning | src/tridot2d/util/strutil.cpp:165-190 | trimBack keeps a prefix of s, cut where the suffix begins; a match at 0 is not cut |
| StrUtil.TrimFront | src/tridot2d/util/strutil.cpp:135-163 | The loop computes TrimFrontSpec |
| StrUtil.TrimBack | src/tridot2d/util/strutil.cpp:165-190 | The loop computes TrimBackSpec |
| StrUtil.SubStringIsInfix | src/tridot2d/util/strutil.cpp:192-197 | subString returns a contiguous piece of s |
| StrUtil.SubString | src/tridot2d/util/strutil.cpp:192-197 | subString is trimBack of trimFront |
| StrUtil.StringContains | src/tridot2d/util/strutil.cpp:207-222 | The result is true exactly when the needle is non-empty and the scanner finds it |
| StrUtil.ContainsIffSplitsApart | src/tridot2d/util/strutil.cpp:50-79 | A match is found exactly when the split has more than one part |
| StrUtil.LeftPadd | src/tridot2d/util/strutil.cpp:199-205 | The result is s with c in front, padded to the target length (never shorter than s) |
| StrUtil.ToLowerSpec | src/tridot2d/util/strutil.cpp:224-235 | toLower keeps the length |
| StrUtil.ToUpperSpec | src/tridot2d/util/strutil.cpp:237-248 | toUpper keeps the length |
| StrUtil.CaseMappingLaws | src/tridot2d/util/strutil.cpp:224-248 | toLower leaves no ASCII upper case letters and is idempotent; toLower after toUpper is toLower, and toUpper after toLower is toUpper |
| StrUtil.ToLower | src/tridot2d/util/strutil.cpp:224-235 | The loop computes ToLowerSpec |
| StrUtil.ToUpper | src/tridot2d/util/strutil.cpp:237-248 | The loop computes ToUpperSpec |
| StrUtil.IntToHexChar | src/tridot2d/util/strutil.cpp:305-307 | intToHexChar gives an upper-case hex digit |
| StrUtil.HexCharToInt | src/tridot2d/util/strutil.cpp:283-294 | hexCharToInt is below 16, is 0 for non-hex characters, and inverts intToHexChar up to case |
| StrUtil.HexCharRoundTrip | src/tridot2d/util/strutil.cpp:283-307 | hexCharToInt(intToHexChar(v)) == v for v < 16 |
| StrUtil.HexDigitsShape | src/tridot2d/util/strutil.cpp:309-316 | intToHex is empty exactly for 0, has no leading zero, and uses upper-case digits only |
| StrUtil.IntToHex | src/tridot2d/util/strutil.cpp:309-316 | The loop computes the digits HexDigits describes |
| StrUtil.HexBits | src/tridot2d/util/strutil.cpp:296-303 | The int accumulator is a 32-bit pattern |
| StrUtil.HexToInt | src/tridot2d/util/strutil.cpp:296-303 | hexToInt as written returns the 32-bit accumulator, sign-extended to uint64_t |
| StrUtil.HexRoundTrip | src/tridot2d/util/strutil.cpp:296-316 | hexToInt(intToHex(v)) == v for v < 2^31 |
| StrUtil.HexRoundTripFailsAt2p31 | src/tridot2d/util/strutil.cpp:296-303 | For 2^31, the round trip gives 2^64 - 2^31 |
| StrUtil.HexToInt64 | src/tridot2d/util/strutil.cpp:296-303 | The corrected hexToInt, with a 64-bit accumulator, stays below 2^64 |
| StrUtil.HexRoundTrip64 | src/tridot2d/util/strutil.cpp:296-316 | With the 64-bit accumulator, the round trip holds for every uint64_t |
| StrUtil.IsNumber | src/tridot2d/util/strutil.cpp:318-334 | isNumber holds exactly when every character is a digit, a '.', or a '-' at index 0, and at most one '.' occurs |
| StrUtil.NatDecimal | src/tridot2d/util/DateTime.cpp:188 | to_string of a natural number is never empty |
| StrUtil.ParseIntPrefix | src/tridot2d/util/strutil.cpp:250-267 | stoi succeeds only with a value in int range |
| StrUtil.NatDecimalDigits | src/tridot2d/util/DateTime.cpp:188 | to_string of n is all digits, with value n |
| StrUtil.ParseAllDigits | src/tridot2d/util/strutil.cpp:250-267 | stoi of a digit string in int range gives its value |
| StrUtil.ParseDecimal | src/tridot2d/util/strutil.cpp:250-267 | toInt reads back what to_string writes |
| StrUtil.ParseZeroPaddedDecimal | src/tridot2d/util/strutil.cpp:250-267 | The same holds behind one leading zero |
| DateTimes.Clamp | src/tridot2d/util/DateTime.cpp:29-55 | The result is in [lo, hi], equals v when v is in range, and equals the nearer bound otherwise |
| DateTimes.Less | src/tridot2d/util/DateTime.cpp:110-154 | Definition of operator<: the cascade of year, month, day, hour, minute and second comparisons, first difference deciding; LessIsLexicographic proves it is the lexicographic order |
| DateTimes.Greater | src/tridot2d/util/DateTime.cpp:165-167 | Definition of operator>: neither < nor == |
| DateTimes.LessEq | src/tridot2d/util/DateTime.cpp:169-171 | Definition of operator<=: not > |
| DateTimes.GreaterEq | src/tridot2d/util/DateTime.cpp:173-175 | Definition of operator>=: not < |
| DateTimes.Pad2 | src/tridot2d/util/DateTime.cpp:185-188 | Definition of a padded field: "0" before a value below 10, then to_string; Pad2Field proves two digits that read back for 0..99 |
| DateTimes.ToStringTime | src/tridot2d/util/DateTime.cpp:206-223 | Definition of toStringTime: hour, minute and second padded and joined by ':'; ToStringTimeShape proves its shape |
| DateTimes.ToStringDate | src/tridot2d/util/DateTime.cpp:181-204 | Definition of toStringDate: "dd", "mm", "yyyy" and then "yy" replaced in the format, in that order, "yy" by year % 100 with C++'s sign; DefaultFormatShape and IsoFormatShape prove the two formats' shapes |
| DateTimes.ToString | src/tridot2d/util/DateTime.cpp:177-179 | Definition of toString: the date in the default format, a space, the time |
| DateTimes.ParsedDate | src/tridot2d/util/DateTime.cpp:225-250 | Definition of what both parsers hand to setDate: the three parts read by toInt with default -1, a year below 100 offset by 2000, not yet clamped |
| DateTimes.LessIsLexicographic | src/tridot2d/util/DateTime.cpp:110-154 | operator< is exactly the lexicographic order on (year, month, day, hour, minute, second) |
| DateTimes.LessIsStrictTotalOrder | src/tridot2d/util/DateTime.cpp:110-154 | operator< is irreflexive, asymmetric, transitive and total on distinct stamps |
| DateTimes.Trichotomy | src/tridot2d/util/DateTime.cpp:156-175 | Exactly one of <, ==, > holds, and > is < swapped |
| DateTimes.NonStrictOrders | src/tridot2d/util/DateTime.cpp:161-175 | <= and >= are the reflexive closures of < and >, and are total |
| DateTimes.CRem | src/tridot2d/util/DateTime.cpp:181-204 | C++ % takes the sign of the dividend |
| DateTimes.Pad2Field | src/tridot2d/util/DateTime.cpp:181-223 | A field 0..99 renders as two digits that read back as the field |
| DateTimes.DecimalField | src/tridot2d/util/DateTime.cpp:181-204 | A year renders as digits that read back as the year |
| DateTimes.ToStringTimeShape | src/tridot2d/util/DateTime.cpp:206-223 | toStringTime is hh:mm:ss, with each field two digits that read back |
| DateTimes.DefaultFormatShape | src/tridot2d/util/DateTime.cpp:181-204 | The default format renders as dd.mm.yyyy |
| DateTimes.IsoFormatShape | src/tridot2d/util/DateTime.cpp:181-204 | "yyyy-mm-dd" renders as year-mm-dd |
| DateTimes.DateTime.constructor | src/tridot2d/util/DateTime.cpp:10-17 | The default is 01.01.1970 00:00:00 |
| DateTimes.DateTime.FromDate | src/tridot2d/util/DateTime.cpp:19-22 | The date is clamped into range and the time is midnight |
| DateTimes.DateTime.FromDateAndTime | src/tridot2d/util/DateTime.cpp:24-27 | Every field is clamped into range |
| DateTimes.DateTime.SetDate | src/tridot2d/util/DateTime.cpp:29-41 | Day is clamped into [1, 31], month into [1, 12] and year into [0, 10000]; the time stays |
| DateTimes.DateTime.SetTime | src/tridot2d/util/DateTime.cpp:43-55 | Hour is clamped into [0, 23], minute and second into [0, 59]; the date stays |
| DateTimes.DateTime.ResetTime | src/tridot2d/util/DateTime.cpp:104-108 | The time becomes 00:00:00 and the date stays |
| DateTimes.DateTime.FromString | src/tridot2d/util/DateTime.cpp:225-239 | With exactly three non-empty '.' parts, the date is set clamped (a year below 100 gets 2000 added); otherwise nothing changes |
| DateTimes.DateTime.FromStringYYYYMMDD | src/tridot2d/util/DateTime.cpp:241-255 | The same, with '-' parts in year-month-day order |
| DateTimes.DefaultFormatParts | src/tridot2d/util/DateTime.cpp:181-239 | Splitting the default date on '.' gives its three fields |
| DateTimes.IsoFormatParts | src/tridot2d/util/DateTime.cpp:181-255 | Splitting the ISO date on '-' gives its three fields |
| DateTimes.DefaultFormatRoundTrip | src/tridot2d/util/DateTime.cpp:181-239 | fromString reads back the default rendering for years 100 and up |
| DateTimes.IsoFormatRoundTrip | src/tridot2d/util/DateTime.cpp:181-255 | fromStringYYYYMMDD reads back the ISO rendering for years 100 and up |
| DateTimes.TwoDigitYear | src/tridot2d/util/DateTime.cpp:225-239 | A year below 100 renders as its decimal digits (one digit below 10) and reads back as year + 2000 |
| Inputs.TransitionLaws | src/tridot2d/systems/Input.cpp:44-73 | A poll sets down to the new reading. pressed holds iff the key went up to down, released iff down to up, never both; a second identical poll gives neither |
| Inputs.Transition | src/tridot2d/systems/Input.cpp:44-73 | Definition of one poll of one key or button: down becomes the reading, pressed and released record the edges |
| Inputs.Combined | src/tridot2d/systems/Input.cpp:104-125 | Definition of an action's state: the OR of its bound keys' and buttons' states; CombinedIsAny is its law |
| Inputs.Bind | src/tridot2d/systems/Input.cpp:225-249 | Definition of bindAction: the binding replaces the action's bindings with reset, and is appended otherwise; BindLaws is its law |
| Inputs.DisabledInputsRelease | src/tridot2d/systems/Input.cpp:44-58 | With inputs disabled every key reads up and not pressed, and is released iff it was down; the key set stays |
| Inputs.Touch | src/tridot2d/systems/Input.cpp:96-102 | A lookup registers the key, and the states of known keys stay |
| Inputs.CombinedIsAny | src/tridot2d/systems/Input.cpp:104-125 | An action is down, pressed or released iff some bound key or button is |
| Inputs.TouchPreservesLookups | src/tridot2d/systems/Input.cpp:104-125 | Registering keys and buttons does not change any lookup |
| Inputs.BindLaws | src/tridot2d/systems/Input.cpp:225-249 | bindAction leaves other actions alone. With reset the action is the new binding; without it, old OR new |
| Inputs.Input.constructor | src/tridot2d/systems/Input.cpp:20-25 | Inputs start enabled, with no keys, buttons or actions and a zero wheel |
| Inputs.Input.Scroll | src/tridot2d/systems/Input.cpp:31 | The scroll callback adds the offset to the pending wheel value and changes nothing else |
| Inputs.Input.Poll | src/tridot2d/systems/Input.cpp:44-73 | Polled: every tracked key or button takes its transition from the window |
| Inputs.Input.Update | src/tridot2d/systems/Input.cpp:36-94 | Without a window nothing changes. Otherwise keys and buttons are polled, the cursor becomes the mouse position, a pending move is sent as the warp and cleared, and the wheel takes the pending value (0 when inputs are disabled) which is then reset |
| Inputs.Input.GetKey | src/tridot2d/systems/Input.cpp:96-102 | get(key) returns the key's state and registers the key |
| Inputs.Input.GetButton | src/tridot2d/systems/Input.cpp:127-129 | get(button) returns the button's state and registers the button |
| Inputs.Input.GetActionState | src/tridot2d/systems/Input.cpp:104-125 | An unknown action is idle. Otherwise the result is the OR over its bindings, and the bound keys and buttons are registered |
| Inputs.Input.BindAction | src/tridot2d/systems/Input.cpp:225-249 | bindAction updates the table as Bind says |
| Inputs.Input.GetAction | src/tridot2d/systems/Input.cpp:251-257 | getAction returns the binding when the action exists, and none otherwise |
| Inputs.Input.SetMousePosition | src/tridot2d/systems/Input.cpp:208-210 | In window coordinates the position becomes the pending move sent on the next update; the current mouse position and the keys are unchanged |
| ShaderStates.FindName | src/tridot2d/render/ShaderState.h:14-22 | The first slot with the name, and none before it; none iff no slot has it |
| ShaderStates.SetReplacesInPlace | src/tridot2d/render/ShaderState.h:14-22 | Setting an existing name replaces that slot and leaves the rest |
| ShaderStates.SetAppendsNewName | src/tridot2d/render/ShaderState.h:21 | Setting a new name appends one slot |
| ShaderStates.SetKeepsNamesDistinct | src/tridot2d/render/ShaderState.h:14-33 | set keeps the names distinct |
| ShaderStates.SetIsMapUpdate | src/tridot2d/render/ShaderState.h:14-33 | Seen as a map from name to value, set is a map update |
| ShaderStates.PresentCount | src/tridot2d/render/ShaderState.h:35-41 | apply hands over exactly the non-null entries: every present entry comes from a slot, every non-null slot's entry is handed over, each as often as its slot occurs; with no null slot nothing is skipped |
| ShaderStates.ShaderState.constructor | src/tridot2d/render/ShaderState.h:99 | A new state has no entries |
| ShaderStates.ShaderState.Put | src/tridot2d/render/ShaderState.h:14-33 | The entry is put in by Set's rule |
| ShaderStates.ShaderState.Set | src/tridot2d/render/ShaderState.h:14-22 | set(name, value) stores a single value by Put |
| ShaderStates.ShaderState.SetArray | src/tridot2d/render/ShaderState.h:24-33 | The array form copies the first count values |
| ShaderStates.ShaderState.Apply | src/tridot2d/render/ShaderState.h:35-41 | apply hands the shader the non-null entries in order |
| Shaders.SectionsMatchMarkers | src/tridot2d/render/Shader.cpp:103-122 | The stages are the "#type" markers in order, each with the lines after it |
| Shaders.SectionsOf | src/tridot2d/render/Shader.cpp:103-122 | Definition of the splitter: a "#type" marker opens a section, any other line joins the last section; SectionsMatchMarkers and AddLineLaws are its laws |
| Shaders.GetLines | src/tridot2d/render/Shader.cpp:59 | Definition of the lines std::getline yields: the '\n'-separated pieces, with no empty line after a final newline; GetLinesOfTerminated is its law |
| Shaders.IncludeName | src/tridot2d/render/Shader.cpp:60-66 | Definition of the include name: the first '"'-separated piece of the second ' '-separated token; IncludeLineNames is its law |
| Shaders.ParentPath | src/tridot2d/render/Shader.cpp:66 | parent_path() is a prefix of the path ending before its last '/', the root "/" when that '/' comes first, and "" when there is no '/' |
| Shaders.ParentPathCases | src/tridot2d/render/Shader.cpp:66 | A nested file includes from its directory, a top-level file from "//", a bare file name from "/" |
| Shaders.ExpandLine | src/tridot2d/render/Shader.cpp:60-83 | Definition of one line's contribution: an include's loaded text plus "\n", nothing when it fails or is malformed, any other line plus "\n" |
| Shaders.LoadSpec | src/tridot2d/render/Shader.cpp:49-89 | Definition of loadSourceFile: None for a missing file, else its lines expanded in order; PlainFileLoadsVerbatim and MissingFileFails are its laws |
| Shaders.CacheLookup | src/tridot2d/render/Shader.cpp:296-322 | Definition of the location caches: a hit returns the entry, a miss queries and stores the answer; CacheLookupLaws is its law |
| Shaders.AddLineLaws | src/tridot2d/render/Shader.cpp:104-121 | A line goes to the last section, or starts a new one at a marker |
| Shaders.NoMarkerNoSections | src/tridot2d/render/Shader.cpp:116-125 | Source without a marker gives no sections |
| Shaders.LastSlash | src/tridot2d/render/Shader.cpp:66 | The directory part ends at the last '/' |
| Shaders.GetLinesOfTerminated | src/tridot2d/render/Shader.cpp:59-84 | Reading a file line by line and appending "\n" to each line rebuilds the file |
| Shaders.PlainFileLoadsVerbatim | src/tridot2d/render/Shader.cpp:49-89 | A file without includes loads as itself |
| Shaders.MissingFileFails | src/tridot2d/render/Shader.cpp:49-56 | A missing file fails to load |
| Shaders.IncludeLineNames | src/tridot2d/render/Shader.cpp:60-66 | An include line names the path between its quotes, relative to the file's directory |
| Shaders.MatchIsInclude | src/tridot2d/render/Shader.cpp:60 | match(line, "#include") == 8 iff the line starts with #include |
| Shaders.CacheLookupLaws | src/tridot2d/render/Shader.cpp:296-322 | A miss queries GL and caches the result; a hit does not query. Other entries stay, and a second lookup is a hit |
| Shaders.Shader.constructor | src/tridot2d/render/Shader.cpp:17-20 | A new shader has id 0 and empty caches |
| Shaders.Shader.CutSections | src/tridot2d/render/Shader.cpp:103-122 | The splitter loop computes SectionsOf |
| Shaders.Shader.CountCompiled | src/tridot2d/render/Shader.cpp:129-155 | Counts how many stages compile, stopping at the first failure |
| Shaders.Shader.LoadFromSource | src/tridot2d/render/Shader.cpp:100-198 | ok iff there are sections, all compile, and they link. On ok the id is the program and the caches are cleared; otherwise the id is unchanged |
| Shaders.Shader.LoadSourceFile | src/tridot2d/render/Shader.cpp:49-89 | The file with its includes expanded, as LoadSpec says |
| Shaders.Shader.Load | src/tridot2d/render/Shader.cpp:91-98 | load is loadFromSource on the expanded file, and fails when the file is missing |
| Shaders.Shader.GetLocation | src/tridot2d/render/Shader.cpp:296-308 | A uniform location comes from the cache, or is queried and cached |
| Shaders.Shader.GetBufferLocation | src/tridot2d/render/Shader.cpp:310-322 | A block index comes from the cache, or is queried and cached |
| Shaders.Shader.Has | src/tridot2d/render/Shader.cpp:200-206 | No program means false. Otherwise true iff the cached-or-queried uniform location is found, or, only when it is not, the block index is found |
| Shaders.Shader.SetUniform | src/tridot2d/render/Shader.cpp:208-286 | The location used is the cached one, or queried and cached; the value is recorded in the state by set's rule; id and block cache unchanged |
| Shaders.Shader.SetBuffer | src/tridot2d/render/Shader.cpp:288-294 | Looks up the block index and binds the buffer when the index is valid |
| Audio.ConvertToInt | src/tridot2d/audio/Audio.cpp:15-24 | Fewer than four bytes give a non-negative value in range; four give a value in int32 range |
| Audio.ParseHeader | src/tridot2d/audio/Audio.cpp:26-159 | Definition of load_wav_file_header: the RIFF, WAVE, fmt and data fields read in order, failing at the first missing field or wrong tag; ParseHeaderAccepts and HeaderRoundTrip are its laws |
| Audio.LoadWav | src/tridot2d/audio/Audio.cpp:161-184 | Definition of load_wav: None when the file cannot be opened or its header fails, else the header and the sample bytes after it |
| Audio.SelectFormat | src/tridot2d/audio/Audio.cpp:208-222 | Definition of the format choice: mono or stereo at 8 or 16 bits, no format for anything else; SelectFormatTable is its law |
| Audio.Half | src/tridot2d/audio/Audio.cpp:239 | C integer division by 2: the result is within one of half the value, rounded toward zero |
| Audio.UploadOf | src/tridot2d/audio/Audio.cpp:233-260 | Definition of what load hands to alBufferData: stereo downmixed to mono, mono as it is, nothing without a format; UploadIsMono is its law |
| Audio.PartialFrameReadsPastBuffer | src/tridot2d/audio/Audio.cpp:244-251 | For a size that is not a multiple of 4, the last frame the 16-bit loop reads as written runs past the buffer and is stored at index size / 4, one past monoData |
| Audio.LittleEndianRoundTrip | src/tridot2d/audio/Audio.cpp:15-24 | convert_to_int reads back the little-endian encoding |
| Audio.ParseHeaderAccepts | src/tridot2d/audio/Audio.cpp:26-159 | The header parses iff there are at least 44 bytes with RIFF, WAVE and data tags; a truncated read means fewer than 44 bytes |
| Audio.ParseHeaderPrefix | src/tridot2d/audio/Audio.cpp:37-144 | Parsing reads only the first 44 bytes |
| Audio.EncodeHeader | src/tridot2d/audio/Audio.cpp:26-159 | An encoded header is 44 bytes long |
| Audio.HeaderRoundTrip | src/tridot2d/audio/Audio.cpp:26-159 | Parsing an encoded header gives back its fields |
| Audio.ChannelsTruncateToByte | src/tridot2d/audio/Audio.cpp:89-94 | The channel count is read into a byte, so 258 channels read as 2 |
| Audio.SelectFormatTable | src/tridot2d/audio/Audio.cpp:208-222 | The OpenAL format follows from channels and bits per sample, and is none for anything else |
| Audio.Mix8 | src/tridot2d/audio/Audio.cpp:233-243 | The corrected 8-bit downmix averages each stereo pair as unsigned samples, one per complete pair |
| Audio.Mix8AsWritten | src/tridot2d/audio/Audio.cpp:236-240 | As written, each 8-bit pair is read as signed chars and their truncated half stored back as a byte, one per complete pair |
| Audio.SignedMixLeavesRange | src/tridot2d/audio/Audio.cpp:237-239 | As written, the samples 255 and 1 mix to 0, which does not lie between them |
| Audio.Mix8Between | src/tridot2d/audio/Audio.cpp:237-239 | Each corrected 8-bit sample lies between its two unsigned channel samples |
| Audio.Mix16 | src/tridot2d/audio/Audio.cpp:244-254 | The 16-bit downmix averages each pair of little-endian samples |
| Audio.HalfIsAverage | src/tridot2d/audio/Audio.cpp:239 | The truncated half of the sum of two samples lies between them, does not depend on their order, and equals the sample when both are equal |
| Audio.MixInRange | src/tridot2d/audio/Audio.cpp:239-250 | A mixed sample stays in its sample range: an unsigned byte for 8-bit, a short for 16-bit |
| Audio.MixOfDuplicate | src/tridot2d/audio/Audio.cpp:233-254 | Downmixing a stereo stream whose two channels are equal gives the channel back |
| Audio.OddSizeReadsPastBuffer | src/tridot2d/audio/Audio.cpp:236-240 | For an odd byte count, the last pair the 8-bit loop reads as written has index size, past the buffer, and is stored at index size / 2, one past monoData |
| Audio.DownmixStereo8 | src/tridot2d/audio/Audio.cpp:233-243 | The corrected 8-bit loop, over whole pairs only and averaging unsigned samples, computes Mix8 |
| Audio.DownmixStereo16 | src/tridot2d/audio/Audio.cpp:244-254 | The corrected 16-bit loop, over whole four-byte frames only, computes Mix16 |
| Audio.UploadIsMono | src/tridot2d/audio/Audio.cpp:233-260 | An upload is made iff the channel count and bit depth are supported; it is then mono with the file's bits per sample |
| Audio.AudioBuffer.constructor | src/tridot2d/audio/Audio.cpp:186-188 | The id starts at 0 |
| Audio.AudioBuffer.Load | src/tridot2d/audio/Audio.cpp:197-263 | No context or an unreadable file: not ok, and nothing changes. Otherwise ok, a buffer id is made if there was none, and the upload is UploadOf the file |
| Assets.Asset.constructor | src/tridot2d/systems/AssetsManager.cpp:18-19 | A loaded asset records its path and whether loading succeeded |
| Assets.GetSpecLaws | src/tridot2d/systems/AssetsManager.cpp:9-37 | The result is what the table holds afterwards. Entries are never removed or replaced, a second get is a hit that changes nothing, "" is always null, and a miss makes a new object |
| Assets.AssetManager.constructor | src/tridot2d/systems/AssetsManager.h:15-26 | The manager starts empty with its directory |
| Assets.AssetManager.Get | src/tridot2d/systems/AssetsManager.cpp:9-37 | A hit returns the cached entry without loading. "" caches null. Any other miss loads directory + name and caches the object even if loading failed |
| Particles.AddAsWrittenOverruns | src/tridot2d/particles/ParticleSystem.cpp:55-62 | As written, at capacity with reuseIndex = 9999 the write goes to index 10000, out of bounds |
| Particles.AddAsWritten | src/tridot2d/particles/ParticleSystem.cpp:54-69 | Definition of addParticle as written: at capacity the slot after the reuse index is stamped, None when that slot is past the end |
| Particles.AddSpec | src/tridot2d/particles/ParticleSystem.cpp:54-69 | Definition of the corrected addParticle: below capacity a new particle is appended, at capacity the reuse index's slot is stamped and the index advances |
| Particles.AddAsWrittenSkipsSlot | src/tridot2d/particles/ParticleSystem.cpp:59-62 | As written, the particle goes to slot reuseIndex + 1, not to the returned index |
| Particles.AddSpecLaws | src/tridot2d/particles/ParticleSystem.cpp:54-69 | The corrected addParticle: at most 10000 particles. The slot holds a fresh particle stamped with the time and no other slot changes. Below capacity it appends; at capacity it keeps the size and advances reuseIndex past the slot |
| Particles.AddSpecRoundRobin | src/tridot2d/particles/ParticleSystem.cpp:55-62 | At capacity, slots are reused round-robin |
| Particles.SwapPopStep | src/tridot2d/particles/ParticleSystem.cpp:21-22 | Removing an expired particle keeps the multiset of the rest |
| Particles.SurvivorsFromRemoved | src/tridot2d/particles/ParticleSystem.cpp:16-25 | The survivors are exactly the particles that have not expired |
| Particles.DropKeepsDrawn | src/tridot2d/particles/ParticleSystem.cpp:21-24 | Dropping an expired particle does not change what is drawn |
| Particles.DrawExtends | src/tridot2d/particles/ParticleSystem.cpp:27-46 | Drawing one more particle adds its pose |
| Particles.ParticleSystem.constructor | src/tridot2d/particles/ParticleSystem.h:21-24 | No particles, time 0, reuseIndex 0 |
| Particles.ParticleSystem.AddParticle | src/tridot2d/particles/ParticleSystem.cpp:54-69 | The pool becomes AddSpec of the old pool, the corrected addParticle |
| Particles.ParticleSystem.Update | src/tridot2d/particles/ParticleSystem.cpp:12-48 | time += dt; exactly the particles that have not expired survive, none of them expired; the poses are drawn in order |
| Particles.ParticleSystem.Expire | src/tridot2d/particles/ParticleSystem.cpp:16-47 | The expiry loop removes exactly the expired particles and draws the rest |
| RenderEnums.TypeSizeIsWidth | src/tridot2d/render/enum.cpp:136-155 | Signed and unsigned types of a width share a size, which is the width in bytes |
| RenderEnums.TypeSize | src/tridot2d/render/enum.cpp:136-155 | Definition of internalEnumSize for element types: bytes per element |
| RenderEnums.PrimitiveSize | src/tridot2d/render/enum.cpp:157-170 | Definition of internalEnumSize for primitives: vertices per primitive |
| RenderEnums.FormatBits | src/tridot2d/render/enum.cpp:172-201 | Definition of the bits of a texture format |
| RenderEnums.InternalAttachment | src/tridot2d/render/enum.cpp:47-62 | Definition of internalEnum for attachments: COLOR + k, DEPTH, STENCIL, or NONE; AttachmentMapping is its law |
| RenderEnums.PrimitiveSizeIsVertexCount | src/tridot2d/render/enum.cpp:157-170 | Points, lines, triangles and quads have 1, 2, 3 and 4 vertices |
| RenderEnums.FormatBitsIsChannelsTimesWidth | src/tridot2d/render/enum.cpp:172-201 | Bits are channels times bits per channel; the value is 0 exactly for NONE, the float formats and DEPTH24STENCIL8 |
| RenderEnums.AttachmentMapping | src/tridot2d/render/enum.cpp:47-62 | COLOR + k maps to colour attachment k exactly for 0 <= k < 16; DEPTH and STENCIL map to the depth and stencil attachments; a value below 0 or at least COLOR + 16 maps to NONE |
| RenderEnums.AttachmentRoundTrip | src/tridot2d/render/enum.cpp:47-62 | Every attachment except NONE comes from exactly one value |

## Left out

- Floating point: `float` and `glm::vec2` are modelled as exact reals, so rounding is not modelled. Float-to-int casts truncate toward zero, as in C++.
- Integer overflow of `int` and `size_t` is not modelled, except in `hexToInt`, where the 32-bit accumulator is the finding below.
- `std::set` iteration order is not modelled: the pairs found inside one broad-phase cell are stated up to their order.
- Pairs between neighbouring cells may come in either order. The broad phase is consulted with the positions from before integration, as in the source.
- `shared_ptr` ownership, `delete` and memory reuse are not modelled. `delete` and `EntityRef::invalidate` appear as entries in the returned call trace.
- `Singleton` lookups become parameters. `RigidBody` takes its entity and the physics system as arguments.
- `EntityRef` is one generic registry shared by both entity systems.
- The legacy `systems/EntitySystem.h` entity has no `active` member, though its `update` reads one. The model gives it an `active` flag that starts out true.
- `PhysicsSystem::postUpdate` does nothing in the source and has no model.
- `EachBroadPhase` hands an empty body slot over as `None` in its pairs, as `getBody` returns null for it; the pairs handed to the solver come from `Ready` states, which have no empty slot.
- `toFloat` (`util/strutil.cpp:269-281`) is left out because it parses floating point.
- `toInt` is modelled as `std::stoi` of the digit prefix. An out-of-range or missing number is the error case. Only the non-Emscripten branch is modelled: the `__EMSCRIPTEN__` branch (`util/strutil.cpp:251-256`) uses `strtol` and also rejects trailing characters, so "12ab" gives the default there and 12 here.
- `DateTime::now`, `toTimeStamp` and `fromTimeStamp` (`util/DateTime.cpp:57-102`) are left out because they read the clock and the time zone.
- The OpenAL device and context calls and the reading of the file are left out of `Audio`. The file's bytes are a parameter.
- The WAV reader's `eof`/`fail` checks are reduced to "enough bytes remain".
- `Input`'s `down`/`pressed`/`released` convenience overloads (`systems/Input.cpp:131-177`) are left out. So are the screen-space mouse getter (`179-192`) and `downControl`/`downShift`/`downAlt` (`213-223`). They only read the modelled state.
- Inputs.Input.SetMousePosition: only the window-coordinate branch is modelled. The screen-space branch rescales by the window size, which is outside the model.
- The nesting depth of shader includes is bounded by a fuel parameter. An include below that depth contributes nothing.
- GL compile and link outcomes are parameters. So are the uniform and block locations and the ids GL hands out.
- The GL constant tables of `render/enum.cpp` map to abstract constants, not to their numeric values.
- Solvers.EulerSolver.Resolve requires two distinct bodies whose total mass is not 0 unless one of them is STATIC. The source divides by that sum and would produce infinities.
- Physics.PhysicsSystem.Step, Physics.PhysicsSystem.Schedule and Physics.PhysicsSystem.Update require `Ready`: no empty body slot, and every pair collidable in the solver's sense. `removeBody` empties a slot, and the source's `step` then passes the null pointer to `updateBody` and `preUpdate`, which dereference it; this is finding 8. Only step's first loop has a corrected model that skips empty slots (Physics.PhysicsSystem.PrepareLive); the collision half of a step after a removal is not modelled. The `Update` contract states the steps taken and the invariants kept, not the positions after several sub-steps.
- Physics.PhysicsSystem.RemoveBody requires that the body's slot does not hold a different body. A body removed once has index 0, so removing it again would empty slot 0, which belongs to another body.
- BroadPhases.StaticGridBroadPhase.Init and BroadPhases.StaticGridBroadPhase.constructor require a positive cell size and non-negative counts. The source divides by the cell size.
- BroadPhases.StaticGridBroadPhase.UpdateBody requires a non-negative index that no other tracked body shares. `PhysicsSystem` always provides this.
- Grids.Grid.Init requires a positive cell size and non-negative counts.
- Shapes.Check requires that a shape tagged BOX on the B side really is a box. The source casts it without checking.
- RigidBodies.RigidBody.Update requires that the component holds a body. The source dereferences it.
- StrUtil.StringContains requires a non-empty needle, or a haystack with no NUL character before its last one. With an empty needle the source compares against the needle's terminating NUL, and a NUL in the haystack makes it read past the needle.
- Shaders.Shader.SetUniform states the location as a hit or a miss of the cache, without saying which.
- DateTimes.DateTime.FromString: `fromString` is declared `bool` and returns false when the string does not split into three parts, but its success path falls off the end, so its value there is undefined. The model reports Rejected or Applied, and Applied promises no return value. A rejected string changes nothing. The same holds for DateTimes.DateTime.FromStringYYYYMMDD.
- Grids.Grid.ResizeToFit, Grids.Grid.FitCell, Grids.Grid.GrowToCell, Grids.CopyCells and Grids.GrownFor implement the corrected resize of findings 4 and 5: y is shifted by `cellSize.y`, and new cell (x, y) takes old cell (x - offsetX, y - offsetY). The as-written resize is Grids.ResizeAsWritten.
- Particles.ParticleSystem.AddParticle implements the corrected slot choice, not the as-written one (finding 2).
- Grids.Grid.Get returns the cell's value where `get` returns a reference. A single write through that reference is Grids.Grid.AssignThrough; a reference kept across later operations (aliasing) is not modelled.
- StrUtil.LeftPadd returns `s` for a negative `targetLength`, where the source converts it to a huge `size_t` and its loop never ends.
- Shaders.ParentPath models only the last-'/' rule and the root "/" of `std::filesystem::path::parent_path`. Repeated separators, root names and other normalisations are not modelled.
- Audio.LoadWav rejects a negative header size, where `new char[size]` throws. For a file shorter than `size`, the model keeps only the bytes present, while the source allocates and uploads `size` bytes, the unread ones included.
- Audio.AudioBuffer.Load uses the corrected downmix loops of findings 3, 7 and 9, not the as-written ones, and hands 8-bit samples over as unsigned byte values. It returns false for a negative header size, where the source's `new char[size]` throws, and for a file shorter than `size` it uploads only the bytes present, where the source uploads `size` bytes.
- Audio.DownmixStereo16 stops at the last whole four-byte frame. The source loop also runs a partial last frame, as finding 7 shows with Audio.PartialFrameReadsPastBuffer.
- Audio.DownmixStereo8 stops at the last whole pair and averages unsigned samples. The source loop also reads past an odd-sized buffer, as finding 3 shows with Audio.OddSizeReadsPastBuffer, and averages signed chars, as finding 9 shows with Audio.SignedMixLeavesRange.

## Findings

| source | as written | input that shows it | evidently intended | confidence | as-written member | corrected member |
|---|---|---|---|---|---|---|
| src/tridot2d/util/strutil.cpp:296-303 | `hexToInt` accumulates in a 32-bit `int` and sign-extends it into the `uint64_t` result | `"80000000"` gives 2^64 - 2^31 instead of 2^31 | accumulate in `uint64_t`, so `hexToInt(intToHex(v)) == v` for every `uint64_t` | not executed | StrUtil.HexRoundTripFailsAt2p31 | StrUtil.HexRoundTrip64 |
| src/tridot2d/particles/ParticleSystem.cpp:59-62 | at capacity, `particles[reuseIndex]` is written after `reuseIndex++` | 10000 particles with `reuseIndex` = 9999 write `particles[10000]`, one past the end | write `particles[index]`, the slot taken before the increment | not executed | Particles.AddAsWrittenOverruns | Particles.AddSpecLaws |
| src/tridot2d/audio/Audio.cpp:236-240 | the 8-bit stereo loop reads `data[i + 1]` for every even `i < size` and writes `monoData[i / 2]` | an odd size 3 reads `data[3]` and writes `monoData[1]`, one past the one-sample buffer | read complete left/right pairs only | not executed | Audio.OddSizeReadsPastBuffer | Audio.DownmixStereo8 |
| src/tridot2d/components/GridT.h:71-72 | `resizeToFit` copies old cell `x + offsetX` to new cell `x` | the cells [1, 2] grown one column to the left become [2, 0, 0] | copy old cell `x` to new cell `x + offsetX`, so every old point keeps its value | not executed | Grids.ResizeLeftMovesContents | Grids.ResizedKeepsContents |
| src/tridot2d/components/GridT.h:39 | a position below the grid is shifted by `cellSize.x` in y | with cell size (1, 10) and y = -5, the grid is left unchanged and the position stays off it | shift by `cellSize.y`, so the position always lands on the grown grid | not executed | Grids.ResizeDownMissesPosition | Grids.ResizedCovers |
| src/tridot2d/systems/EntitySystem.h:24 and src/tridot2d/systems/EntitySystem.cpp:101-112 | a new legacy entity's `entityIndex` defaults to 0, so a removal of it before it is added passes the bounds check | removing an entity that is still pending deletes `entities[0]` | default -1, as the core entity system does, so pending removals are ignored | not executed | LegacyEntities.PendingRemovalDeletesFirst | Entities.PendingRemovalsIgnored |
| src/tridot2d/audio/Audio.cpp:244-251 | the 16-bit stereo loop runs for every `i < size` in steps of 4, a partial last frame included | size 6 reads `data[6..7]` and writes `monoData[1]`, one past the one-sample buffer; `alBufferData` at line 252 then reads `size / 2` = 3 bytes from that 2-byte buffer | read complete four-byte frames only | not executed | Audio.PartialFrameReadsPastBuffer | Audio.DownmixStereo16 |
| src/tridot2d/physics/PhysicsSystem.cpp:26-29 and 59-66 | `removeBody` sets the body's slot to null, and `step`'s first loop hands every slot to `updateBody` and `preUpdate`, which dereference it | adding two bodies, removing the first, and calling `update` with one sub-step dereferences the null slot 0 | skip empty slots in the loop, as `getBody` already does | not executed | Physics.EmptiedSlotHasNull | Physics.PhysicsSystem.PrepareLive |
| src/tridot2d/audio/Audio.cpp:237-239 | the 8-bit downmix reads the samples as signed `char`, but 8-bit PCM and `AL_FORMAT_MONO8` are unsigned | the samples 0xFF and 0x01 mix to 0x00 instead of 0x80 | average the samples as unsigned bytes | not executed | Audio.SignedMixLeavesRange | Audio.Mix8Between |
