# Reaction simulation engine, modelled in Dafny

The system is a browser animation of the reaction

    3 Ag2S + 2 Al + 6 H2O -> 6 Ag + 2 Al(OH)3 + 3 H2S

played out by molecules moving on a canvas. Every animation frame does
three things to the list of entities. First, each entity steps: it moves,
spins, is damped and reflects off the canvas edges. Second, the collision
pass pushes overlapping pairs apart, exchanges an impulse along their
contact normal and clamps each entity back inside the canvas. Third, a
number of reaction attempts that grows with the temperature T are made.
Each attempt draws a random number against a probability set by T, by a
hidden multiplier (the R key) and by a trap mode (the T key). It then
checks that a full reactant packet is present and looks for the first Al
molecule touching an Ag2S molecule. When it finds one, it removes the
reactants nearest the contact point, spawns the products around that
point and kicks the neighbouring molecules outwards.

The project has eight modules.

- `Catalog`: the six species and their collision radii.
- `Seqs`: a stable sort, taking a prefix and removing a set of positions, on sequences.
- `Store`: the entity list as values (`Body`: species and position), and on it `count`, `removeSome` and `spawn`.
- `Controls`: the reaction probability, the R-key cycle, the number of reaction attempts per frame and the capped frame time.
- `Reaction`: `tryReact` on values: the packet gate, the contact search and the packet exchange.
- `Kinematics`: the arithmetic of one entity (reflection, clamp, pair response, kick).
- `Collisions`: `resolveCollisions` on the list of motions.
- `Engine`: the running system. `Entity` is a class whose fields `step`, the collision pass and the kick update in place. `Simulation` owns the list `ents` and the controls. Its methods are the source's loops with their invariants, each proved against the value model through `Snap` (the list read as bodies) and `Motions` (the list read as positions and velocities).

Math.random, Math.hypot and the canvas size become parameters:

- a draw `u` for the reaction gate;
- a stream `draw` of spawn offsets;
- a function `hypot` (the property lemmas assume `IsHypot`: non-negative and squaring to dx² + dy²);
- the width `w` and the height `h`.

## Model

| member | source | states |
|---|---|---|
| Catalog.CollisionRadius | app.js:125-176 | every species' collision radius `cr` lies between 16 and 28 (the radius of Ag2S) |
| Store.CountIsCardinality | app.js:295-299 | `count(type)` equals the number of positions of the list that hold that species |
| Store.CountAppend | app.js:295-299 | counting is additive over concatenation |
| Store.CountBySpecies | app.js:295-299 | counts depend only on the species at each position, so moving entities never changes a count |
| Store.Count | app.js:295-299 | `count(type)` never exceeds the number of entities; CountIsCardinality proves it is exactly the number of positions holding the species |
| Engine.Simulation.Count | app.js:295-299 | the counting loop returns exactly the number of entities of the species |
| Store.IndicesOf | app.js:303-309 | the collected positions are exactly those of the species, strictly increasing, as many as the count |
| Engine.Simulation.Positions | app.js:303-309 | the first loop of `removeSome` collects exactly IndicesOf |
| Seqs.SortBy | app.js:310-311 | the sort yields a permutation of its input, ordered by the key |
| Seqs.SortByNoDup | app.js:310-311 | sorting keeps distinct positions distinct |
| Seqs.InsertByKeyed | app.js:310-311 | one insertion step puts the new element in front of every element with the same key and keeps their order |
| Seqs.SortByStable | app.js:310-311 | the sort is stable: for every key, the elements with that key come out in the order they went in, so ties in distance keep list order |
| Store.NearestIndices | app.js:310-311 | the chosen positions number min(n, count), are distinct and all hold the species |
| Store.RemovalOrder | app.js:311 | the splice order holds the same positions as the chosen ones, in strictly descending order |
| Engine.RemovalSteps | app.js:303-311 | the collect, sort, slice and re-sort steps compute NearestIndices and a strictly descending, in-range RemovalOrder |
| Engine.Simulation.RemovalPlan | app.js:303-311 | the method computes RemovalOrder, and every position in it lies in the list |
| Seqs.WithoutSplice | app.js:312 | splicing out position k, above every position already dropped, is dropping k as well |
| Engine.Simulation.SpliceOut | app.js:312 | splicing out strictly descending positions, one at a time, leaves the list without exactly those positions |
| Engine.Simulation.RemoveSome | app.js:301-313 | `removeSome` leaves the list without the nearest positions of the species, and its bodies are RemoveNearest of the old ones |
| Store.RemoveNearestCounts | app.js:301-313 | `removeSome` removes exactly min(n, count) entities, all of the species; the other counts stay, and the other species keep their order |
| Store.RemoveNearest | app.js:301-313 | `removeSome` on the bodies: the list without the NearestIndices positions; RemoveNearestCounts and RemoveNearestPrefersClosest state what that removes |
| Store.RemoveNearestPrefersClosest | app.js:306-311 | every removed entity is at least as near the point as every kept entity of the species |
| Store.WithoutOfSpecies | app.js:312 | dropping positions that all hold species t shortens the list by their number and lowers only t's count |
| Store.WithoutKeepsOthers | app.js:312 | dropping positions of species t keeps every other entity in its relative order |
| Store.SpawnBodies | app.js:315-324 | `spawn` appends one body per draw, of the species, at the point plus that draw's offset |
| Store.SpawnBodiesCount | app.js:315-324 | spawning n entities adds n to the species' count and nothing to the others |
| Engine.Entity.constructor | app.js:196-206 | a new entity takes its fields from the arguments and its radius from the species table |
| Engine.Simulation.Spawn | app.js:315-324 | `spawn` appends one fresh entity per draw and keeps the old list as a prefix; the bodies gain SpawnBodies |
| Controls.ReactionProbability | app.js:327-333 | `reactionProbability()` is non-negative for a non-negative temperature and multiplier |
| Controls.TrapDampens | app.js:331-332 | trap mode multiplies the probability by exactly 0.35, so it lowers any positive probability |
| Controls.ProbabilityGrowsWithT | app.js:330-332 | at each multiplier setting, a higher temperature gives a strictly higher probability |
| Controls.ProbabilityRange | app.js:327-333 | over temperatures 1..8 and the three multiplier settings, the probability lies in [0.00875, 0.416] |
| Controls.NextMultiplier | app.js:453-457 | the R key always lands on 1.0, 2.2 or 3.2; it goes to 1.0 exactly from 2.5 up, and it increases exactly below 2.5 |
| Controls.MultiplierCycle | app.js:453-457 | the R key cycles 1.0 -> 2.2 -> 3.2 -> 1.0 |
| Controls.MultiplierPeriod | app.js:453-457 | from any setting, three presses return to it and one press changes it |
| Engine.Simulation.CycleReactionMultiplier | app.js:453-457 | the R key sets the multiplier to NextMultiplier of the old one |
| Engine.Simulation.ToggleTrap | app.js:458 | the T key flips trap mode |
| Engine.Simulation.TogglePause | app.js:430-433 | the pause button flips `paused` |
| Engine.Simulation.SetTemperature | app.js:428 | the temperature slider sets T |
| Engine.Simulation.constructor | app.js:180-193 | the initial state: no entities, T = 1, multiplier 1.0, no trap, not paused |
| Controls.TriesCharacterised | app.js:481 | `1 + floor((T-1)/2)` is at least 1 exactly when T >= 1, and it is the k with 2k-1 <= T < 2k+1 |
| Controls.TriesMonotone | app.js:481 | the number of attempts never falls as T rises and grows by one every two degrees |
| Controls.TriesOnSlider | app.js:481 | on the slider values 1..8 the number of attempts is (T+1) div 2 |
| Controls.Tries | app.js:481 | `tries = 1 + floor((T-1)/2)`; its meaning (at least one try exactly when T >= 1, one more every two degrees) is proved by TriesCharacterised and TriesMonotone |
| Controls.FrameTime | app.js:471 | dt never exceeds 0.033 s, and it equals the elapsed time exactly when that is at most 0.033 |
| Reaction.InContactSquared | app.js:352-353 | with a true hypot, the contact test holds exactly when dx² + dy² is below the square of the two radii plus 6 |
| Reaction.InContact | app.js:352-353 | the contact test: the hypot of the offset is below the two collision radii plus 6 px; InContactSquared turns it into a comparison of squares |
| Reaction.HasPacketIsLimitingReagent | app.js:341-343 | the gate admits exactly the lists in which one reaction leaves no count negative |
| Reaction.HasPacket | app.js:341-343 | the stoichiometric gate: at least 3 Ag2S, 2 Al and 6 H2O; HasPacketIsLimitingReagent proves it admits exactly the lists one reaction leaves with no negative count |
| Engine.Simulation.PacketAvailable | app.js:341-343 | the three count tests answer exactly HasPacket |
| Reaction.PartnerFrom | app.js:349-353 | the inner loop finds the first Ag2S in contact with Al i from position j on, or reports that there is none |
| Engine.Simulation.PartnerOf | app.js:349-353 | the inner loop method returns PartnerFrom |
| Reaction.SiteFrom | app.js:346-353 | the outer loop finds the first Al with a partner and that partner; if there is none, no pair is in contact |
| Reaction.FindSiteIsFirst | app.js:346-353 | a site is found exactly when some Al touches some Ag2S; the site is the lexicographically least such pair (Al position, then Ag2S position) |
| Reaction.FindSite | app.js:346-353 | the nested search from the first Al; SiteFrom's contract and FindSiteIsFirst make it the least contact pair, or none when no pair touches |
| Engine.Simulation.FindContact | app.js:346-353 | the nested search loops return FindSite |
| Reaction.Midpoint | app.js:354-355 | the contact point is equidistant from the two reacting entities on each axis |
| Reaction.RemoveExactly | app.js:358-360 | with enough entities of a species, removing n of them lowers its count by n, the length by n, and no other count |
| Reaction.ConsumeCounts | app.js:358-360 | the three removals take out 3 Ag2S, 2 Al and 6 H2O, 11 entities in all |
| Reaction.Consume | app.js:358-360 | the three `removeSome` calls on the bodies, 3 Ag2S then 2 Al then 6 H2O, nearest the contact point first; ConsumeCounts states what they take |
| Reaction.ProduceCounts | app.js:363-365 | the three spawns add 6 Ag, 2 AlOH3 and 3 H2S after the existing entities, which stay a prefix |
| Reaction.Produce | app.js:363-365 | the three `spawn` calls on the bodies, 6 Ag then 2 AlOH3 then 3 H2S, appended; ProduceCounts and ProduceLayout state the result |
| Reaction.ReactAtCounts | app.js:354-365 | one reaction moves each count by its delta (-3 Ag2S, -2 Al, -6 H2O, +6 Ag, +2 AlOH3, +3 H2S) and keeps the length |
| Reaction.ReactAt | app.js:354-365 | one reaction at a site: Consume then Produce at the site's Midpoint; ReactAtCounts proves it moves every count by its delta and keeps the length |
| Reaction.React | app.js:335-381 | nothing changes when u > p, when the packet is short or when no pair touches; otherwise exactly the reaction at the first contact pair happens |
| Reaction.ReactCounts | app.js:335-381 | `tryReact` keeps the length and either changes nothing or moves every count by its delta; a change implies u <= p, the packet and a contact pair |
| Reaction.DeltasConserveAtoms | app.js:358-365 | the packet exchange balances Ag, Al, S, O and H atoms |
| Reaction.FirstReaction | app.js:354-365 | from 5 Ag2S, 5 Al and 20 H2O, one reaction leaves 2, 3, 14, 6, 2 and 3 |
| Engine.RemoveEach | app.js:358-360 | a run of `removeSome` calls leaves only entities of the old list |
| Engine.ConsumeEntities | app.js:358-360 | the objects the three `removeSome` calls keep are entities of the old list |
| Engine.ConsumeEntitiesSnap | app.js:358-360 | the objects ConsumeEntities keeps carry exactly the bodies Consume keeps |
| Engine.Simulation.RemovePacket | app.js:358-360 | the three `removeSome` calls leave exactly the objects ConsumeEntities keeps, in their old order, and turn the bodies into Consume of the old ones |
| Engine.Simulation.SpawnPacket | app.js:363-365 | the three `spawn` calls turn the bodies into Produce of the old ones, keep the old list as a prefix and add 11 fresh entities; product k is of species ProductSpecies(k) with the position, velocity, angle and angular velocity of draw k |
| Reaction.ProduceLayout | app.js:363-365 | production appends 11 bodies after the kept ones, product k of species ProductSpecies(k) (6 Ag, 2 AlOH3, 3 H2S) at the contact point plus draw k's offset |
| Engine.Simulation.ReplacePacket | app.js:358-365 | removal, then production, at the contact point; the entities before the last 11 are exactly the old objects ConsumeEntities keeps; the last 11 are fresh products with their drawn motion and spin |
| Engine.Simulation.KickPacket | app.js:368-376 | the kick loop right after production: every entity is kicked from its own motion with its spin kept, so product k ends with the kick of draw k's position and velocity around the contact point, and draw k's angle and angular velocity |
| Kinematics.KickVelocity | app.js:369-375 | the kick never moves an entity, and it leaves alone an entity at distance 0 or at least 120 px |
| Kinematics.KickAround | app.js:368-376 | the kick moves no entity, and an entity whose distance from the site is not strictly between 0 and 120 keeps its velocity |
| Kinematics.KickAroundKeeps | app.js:368-376 | with a true hypot, entities at the site or at least 120 px from it keep their motion, and nobody moves |
| Kinematics.KickOutward | app.js:371-375 | inside the radius, the velocity change is a positive multiple of the offset from the site, pointing straight away from it |
| Engine.Entity.Kick | app.js:369-375 | the kick on one entity sets its motion to KickVelocity and leaves its spin |
| Engine.Simulation.KickAt | app.js:369-375 | entity i gets KickVelocity at its own distance; every other motion and every body is unchanged |
| Engine.Simulation.KickLoop | app.js:368-376 | the kick loop sets the list's motions to KickAround and keeps bodies and spins |
| Engine.Simulation.KickAll | app.js:368-376 | every entity is kicked from its own old motion; bodies and spins are unchanged |
| Engine.Simulation.ReplaceAndKick | app.js:358-376 | the packet exchange, then the kick: the entities before the last 11 are exactly the old objects ConsumeEntities keeps, each kicked from its own motion with its spin kept; the last 11 are fresh, and product k has the kick of draw k's motion and draw k's spin |
| Engine.Simulation.ReactAtSite | app.js:354-376 | the contact branch: the bodies become ReactAt at the site's midpoint; the entities before the last 11 are exactly the old objects ConsumeEntities keeps, kicked from that midpoint; the last 11 are fresh, and product k has the kick of draw k's motion and draw k's spin |
| Engine.Simulation.ReactAtFirstContact | app.js:346-380 | with the packet present: a reaction happens exactly when a contact pair exists, at the first one, with the survivors (the old objects ConsumeEntities keeps) and the fresh products kicked from its midpoint as in ReactAtSite; otherwise nothing changes |
| Engine.Simulation.TryReact | app.js:335-381 | the bodies become React(u, p); reacted holds exactly when u <= p, the packet is present and a contact pair exists; the counts move by one reaction's deltas or not at all; the length is kept; on no reaction, no entity changes; on a reaction, the entities before the last 11 are exactly the old objects ConsumeEntities keeps, each kicked from its own motion, and product k, a fresh entity, has the kick of draw k's motion and draw k's spin, around the first contact pair's midpoint |
| Engine.ReactAtMoves | app.js:354-365 | one reaction of a list holding the packet is one move of the counts and keeps the length |
| Engine.MovedIsScaled | app.js:481-482 | k reactions move species t's count by k times its delta |
| Engine.CountsAdvance | app.js:481-482 | k reactions followed by d more move the counts by k + d reactions |
| Engine.Attempts | app.js:481-482 | the bodies after n tries of the loop, each try being React with its own draws, keep the number of entities |
| Engine.Reactions | app.js:481-482 | n tries react at most n times |
| Engine.ReactMoves | app.js:335-381 | one try moves the counts by one reaction exactly when it reacts, not at all otherwise |
| Engine.AttemptsMove | app.js:481-482 | n tries move every count by the deltas of exactly as many reactions as Reactions counts |
| Engine.Simulation.Attempt | app.js:482 | try i of the loop takes the bodies from Attempts(i) to Attempts(i + 1) |
| Engine.Simulation.RunAttempts | app.js:481-482 | the loop leaves the bodies of Attempts after max(0, n) tries |
| Engine.Simulation.ReactionTries | app.js:481-482 | the bodies become Attempts after max(0, n) tries and the reactions are Reactions of them, at most max(0, n); the length is kept and every count moves by that many reactions |
| Kinematics.Clamp | app.js:43 | `clamp(v, lo, hi)` lies in [lo, hi] when lo <= hi, is v when v already lies there, and is otherwise one of the bounds |
| Kinematics.ReflectAxis | app.js:224-227 | the two edge tests keep the speed, put the position in [lo, hi], leave an inside entity alone and reflect an outside one inwards |
| Kinematics.StepAxis | app.js:207-228 | one axis of `step(dt)`: the speed ends as the old speed damped by 0.999 (reflection only turns it), and the position ends in [lo, hi] when lo <= hi |
| Kinematics.DampingAtRest | app.js:212-218 | with dt = 0 an inside entity stays put while its speed still decays by 0.999 |
| Engine.Entity.Move | app.js:210-218 | each axis is Advance: the position moves by velocity × dt × (0.7 + 0.9T) and the velocity damps by 0.999; the angle is Turn: it moves by vr × dt × (0.3 + 0.2T) |
| Engine.Entity.Bounce | app.js:220-227 | each axis is reflected by ReflectAxis; on a canvas at least twice the radius wide and high the entity ends inside it |
| Engine.Entity.Step | app.js:207-228 | `step(dt)` is integration then reflection: each axis is StepAxis of its old value, the angle turns, and the entity ends inside a large enough canvas |
| Kinematics.StepMotion | app.js:207-228 | the step of one motion: an entity of radius cr on a canvas at least 2cr wide and high ends inside it |
| Engine.SteppedMotion | app.js:207-228 | a stepped entity's motion is StepMotion of its old motion |
| Engine.StepEach | app.js:475 | every motion steps by its own radius, and each one whose radius fits the canvas ends inside it |
| Engine.Simulation.StepAll | app.js:475 | every entity steps from its own old state and ends inside a large enough canvas; the list's motions become StepEach of the old ones |
| Kinematics.PairResponse | app.js:267-286 | a pair's positions and velocities sum as before, and a pair that is not strictly between 0 and minD apart is untouched |
| Kinematics.PairSeparates | app.js:272-275 | an overlapping pair is pushed apart along its normal to an offset of dist + 1.1·(minD − dist), which exceeds minD |
| Kinematics.PairRestitution | app.js:278-285 | an approaching pair leaves with its normal relative speed reversed and scaled by 0.8; a receding pair keeps it |
| Kinematics.CoincidentCentres | app.js:271 | with a true hypot, coinciding centres are never divided by zero: the pair is left alone |
| Engine.Separate | app.js:274-275 | the pair's motions become PushAlong: a moves back and b forward by the overlap along the normal, velocities and spins stay |
| Engine.Exchange | app.js:278-285 | the pair's motions become ImpulseAlong: an impulse of 0.9 × reln along the normal is exchanged when reln < 0; positions and spins stay |
| Engine.Collide | app.js:266-286 | the pair's motions become PairResponse of the old ones, and their spins stay |
| Collisions.PairAt | app.js:266-286 | one pair of the pass changes only entities i and j |
| Collisions.Row | app.js:265-287 | entity i's inner loop leaves every earlier entity alone |
| Collisions.ClampAt | app.js:289-290 | the clamp settles entity i inside the canvas and changes nobody else |
| Engine.Entity.ClampInto | app.js:289-290 | the clamp sets x and y to their clamped old values and keeps velocities and spin; the entity ends at least cr from the top and left edges, and inside a canvas at least 2cr wide and high |
| Collisions.Pass | app.js:263-291 | the outer loop leaves earlier entities alone and settles every entity from i on |
| Collisions.Resolve | app.js:260-292 | after `resolveCollisions` every entity is settled: at least cr from the top and left edges, and at most w − cr and h − cr when the canvas allows |
| Collisions.ResolveKeepsMomentum | app.js:260-292 | the collision pass conserves the total momentum of the list |
| Engine.Simulation.CollideAt | app.js:266-286 | pair (i, j) of the pass on the list is PairAt on its motions |
| Engine.Simulation.PushRow | app.js:265-287 | entity i's inner loop on the list is Row on its motions |
| Engine.Simulation.ClampEntity | app.js:289-290 | the clamp on the list is ClampAt on its motions |
| Engine.Simulation.ResolveCollisions | app.js:260-292 | the pass sets the list's motions to Resolve of the old ones and keeps the spins |
| Engine.Simulation.Move | app.js:475-478 | the list's motions become Resolve of StepEach of the old ones, so every entity is settled inside the canvas; each angle turns by its own angular velocity; every species count is kept |
| Engine.Simulation.Frame | app.js:469-485 | a paused frame changes nothing; otherwise the frame keeps the length, makes at most `tries` reactions and moves every count by that many times its delta |

## Left out

- Drawing is not modelled: canvas setup and resizing, `clear`, `Entity.draw`, atom layouts, colours, labels and the labels button, because none of it affects the simulation state.
- The counter display (`updateCounts`), the diagnostics box, the P key and the fps measurement are not modelled, because they only read the state.
- `reset` and `randomSpawn`, and the count sliders that trigger them, are not modelled. They build a fresh random list; the model's constructor starts from an empty one and `Spawn` appends.
- The `seed` field of an entity is not modelled, because nothing reads it.
- `rot || 0` and `vr || 0` are not modelled: spawn always passes numbers, so the model takes them as given.
- Math.random becomes parameters: the draw `u` of each attempt and the stream `draw` of spawn offsets. The velocity, angle and angular velocity `spawn` draws are fields of `SpawnDraw`, and only its offset reaches `Body`.
- Math.hypot becomes the parameter `hypot`. The lemmas that need it to be the Euclidean length assume `IsHypot`; the methods take any function.
- `requestAnimationFrame` and `performance.now` are not modelled. `Frame` takes the elapsed seconds as a parameter, and the canvas width and height are parameters too.
- JavaScript numbers are IEEE doubles; the model uses exact reals, so rounding is not modelled.
- Kinematics.PairRestitution: it assumes the normal is a unit vector, which a true hypot makes it only up to rounding.
- Controls.ProbabilityGrowsWithT: it is stated for the three multiplier settings only, since a zero or negative multiplier would not make the probability grow.
- Collisions.Resolve: it states the canvas bounds only, not that overlaps are gone. A later pair's push or a clamp can leave two entities overlapping, and the source does not promise otherwise.
- Engine.Simulation.Frame: it states counts and length, not positions. Products spawned during the reaction loop can lie outside the canvas until the next frame's step.
