# SocSim core, modelled in Dafny

SocSim (`v03.js`) is a tick-driven agent economy. Five kinds of agent share an arena:

- cooperators, competitors and defectors (the "commonfolk");
- predators;
- enforcers.

The world has four lists: `agents`, `resources`, `nodes` and `jail`. There is also a log of recent crimes. Mass sits in three pools:

- the public pool, for enforcer salaries;
- the co-op investment pool;
- the predator investment pool.

Counters record what happened.

Every sub-tick of the game loop runs these phases in order:

1. spawn a resource;
2. release due prisoners;
3. reseed the population;
4. update every node;
5. update the agents (metabolism, meals, theft, arrests, raid fights, the death sweep, removal of eaten resources);
6. let commonfolk witness recent crimes.

Once per animation frame, after the sub-ticks, further phases run: governance (salaries, layoffs, a top-5 tax, hiring), then investment in new co-op and predator nodes. Last, the render pass splices out nodes whose mass has reached 0.

The model follows the script function by function, one module each:

| Module | Models |
|---|---|
| `Entities` | The records, the constants and the small pure helpers: the visual level, the natural shares, the agent and node constructors. |
| `Counting` | Head counts and mass totals, with their splice and update lemmas. |
| `Agents` | `Agent.update`: the safety flag, the AI flag logic, the clamp with reflection, the immunity countdown, decay and level. |
| `Nodes` | `Node.update`: node decay and marking, the raid clock, crime decay, the crime reset, the periodic spawn. |
| `Raids` | The mass-based force balancing of a raided predator node: nearest-first recruitment, farthest-first dismissal. |
| `Feeding` | The meal loop of `updateAgents`: who may eat what, the yields, cooperator investment and 50/50 sharing, defector exclusion, punishment of defectors at co-op resources. |
| `Encounters` | The interaction loop of `updateAgents`: theft, raid combat, backup, bribes, witnessed corruption, arrests. |
| `Sweep` | The death sweep and the removal of consumed resources. |
| `Governance` | `updateGovernance`. |
| `Investment` | `updateCoopInvestment` and `updatePredatorInvestment`. |
| `Population` | `updateJail` and `updatePopulationDynamics`. |
| `Crimes` | `processCrimeEvents`. |
| `Simulation` | The world as a class, one method per phase, and `gameLoop`. |

**Values and the world.** Agents, nodes, resources, jail entries and crime events are datatype values. The world's lists are `seq` fields of the `Simulation.World` class. Changing an agent object in place is modelled as replacing its element of the list.

**Methods and their specifications.** Each loop of the script is a method with loop invariants. Where the loop allows it, the method is proved equal to a specification function, and that function's properties are proved as lemmas. The node pass, the agents pass, and the sub-tick and frame that contain them state invariants instead, as listed under "Left out". The other World methods state the world's whole new state in terms of the specification functions. Every World method keeps the invariant `Valid()`:

- the node list is valid: at most one raid, only on a predator node, with timers and crime levels in range;
- the public pool is never negative;
- only predators are in jail.

**External inputs.** The model takes as parameters:

- every `Math.random()` draw;
- every placement point;
- the steering the AI routines compute;
- `calculateRadius`, as one function `radiusOf` fixed when the world is built, applied to the mass wherever the script calls it;
- fresh ids.

**Distances.** `Math.sqrt` distance comparisons become comparisons of squared distances (`Geometry.Within`). "Nearest first" is the first index of minimal key, which is the order a stable sort leaves.

**Modelled as the code behaves.** These behaviours look unintended, but each is modelled as the code behaves:

- An enforcer never joins a raid on its own. The join test compares against `raidForceSize`, a field the node no longer has, so the test is always false. Enforcers join raids only through the node's recruitment, or as backup (`Agents.EnforcerRaidFlags`).
- The predator-pool contribution of a theft comes on top of the full amount stolen, so it creates mass (`Encounters.TheftFacts`).
- Mass taken by an arrest, a bribe or a witnessed corrupt enforcer goes into no pool. An arrest only credits the `predatorMassRecovered` counter (`Encounters.ConfrontFacts`).
- A predator defeated in raid combat is jailed without counting as an arrest (`Encounters.DrainFacts`).
- Nodes marked dead keep their place in the list until the end of the frame (`Simulation.World.SweepNodes`).
- Layoffs remove enforcers from the back of the list (`Governance.Layoffs`).
- The reseed target is computed from a total that includes enforcers and jailed agents (`Population.ReseedCensus`).

## Model

| member | source | states |
|---|---|---|
| Entities.VisualLevel | v03.js:314-324 | The level is at most 3, and it is at least k exactly when the mass reaches the k-th level threshold. |
| Entities.VisualLevelMonotone | v03.js:314-324 | More mass never lowers the visual level. |
| Entities.NaturalPercents | v03.js:1352-1364 | The four shares add up to 1. With a positive total, each share times the total is that type's starting count. Otherwise each share is a quarter. |
| Entities.NaturalPercentsAreFractions | v03.js:1353-1364 | For non-negative starting counts every share lies in [0, 1]. |
| Entities.NewAgent | v03.js:246-277 | A new agent has its id, type and position, no raid, flight, immunity, crimes or exclusions, and level 0. Its mass is the enforcer start mass for an enforcer, otherwise the base mass, and is above the death floor either way. Its radius is `radiusOf` of that mass (v03.js:260). |
| Entities.NewNode | v03.js:1012-1049 | A new node has its id, kind and position, its mass above its minimum mass, which is positive, zero timers, no crime, no raid, and its kind's spawn radius. |
| Counting.CountKind | v03.js:1742-1745 | The counting loop yields the head count of the type. |
| Counting.CensusRemoveAt | v03.js:1588-1589 | Splicing one agent out lowers its own type's head count by one and leaves every other count unchanged. |
| Counting.TotalMassRemoveAt | v03.js:1672 | Splicing one agent out lowers the total mass by exactly its mass. |
| Agents.FirstRaidedNode | v03.js:764-769 | The result is the first raided predator node, and it is absent exactly when no predator node is under raid. |
| Agents.EnforcerRaidFlags | v03.js:771-797 | An enforcer stays raiding exactly when it was already raiding the node now under raid. It never starts raiding, any other enforcer's raid fields are cleared, and nothing else changes. |
| Agents.FleeFlags | v03.js:536-552 | A fleeing agent stops fleeing once inside its target node's radius or when it has no target. Otherwise nothing changes. |
| Agents.PredatorRaidFlag | v03.js:640-697 | Only `isRaiding` may change, and when it changes it becomes "some predator node is under raid". |
| Agents.AiFlags | v03.js:458-464 | The AI flag logic changes no id, type, mass, radius, position, timer, crime count or sharing record, and never makes an enforcer start raiding. |
| Agents.SafeRadius | v03.js:491 | The clamping radius is at least 1. |
| Agents.ClampAxis | v03.js:484-502 | The new coordinate lies within [safeR, size − safeR]. An in-range move is kept. The velocity is reversed exactly when the coordinate ends on an edge. |
| Agents.Decay | v03.js:519-526 | After decay the mass is the old mass minus the decay amount, or the death floor when that would fall below it. It is never below the floor. |
| Agents.CountDown | v03.js:514-517 | A positive timer drops by one. A timer that is not positive stays put. |
| Agents.AgentTick | v03.js:443-531 | One agent update keeps identity, type, crimes and sharing records. The mass is the decayed mass, the radius and level follow the new mass, and the immunity counts down. The agent is safe exactly when it starts inside a predator node. The position stays in the arena margins, and no enforcer starts a raid. |
| Agents.DecayAtLeastBase | v03.js:520-526 | One tick of decay takes at least the base decay, unless the floor is reached. |
| Agents.DecayTicksBound | v03.js:519-526 | After n ticks with no income, the mass is between the floor and max(floor, mass − n × base decay). |
| Agents.DecayReachesFloor | v03.js:519-526 | With positive base decay, an agent with no income is at the death floor after any n ticks with n × base decay ≥ mass − floor. |
| Nodes.NodeDecay | v03.js:1108-1121 | A node below its minimum mass after decay gets mass 0; otherwise it loses exactly the decay rate. |
| Nodes.NodeLifetime | v03.js:1108-1121 | Over k updates a node keeps losing the decay rate while it stays at or above its minimum mass, and is 0 from the first update that would take it below. |
| Nodes.RaidClock | v03.js:1124-1240 | During a raid the timer drops by one, and at 0 the raid ends with the full cooldown and a zero force. Otherwise the cooldown counts down and the crime level decays but never goes negative. A raid starts exactly when crime reaches 4000, no raid is active anywhere and the cooldown has run out; it starts with the full raid time. |
| Nodes.RaidLasts | v03.js:1126-1198 | A raid with t ticks left is still running after fewer than t updates and is over, with the full cooldown, after exactly t. |
| Nodes.NoRaidDuringCooldown | v03.js:1217-1238 | A node not under raid with c cooldown ticks left stays out of raid for the next c − 1 updates, whatever its crime level. After every k < c updates its cooldown is c − k. The c-th update may already start a raid, because the cooldown drops before the trigger is tested. |
| Nodes.ClearCrime | v03.js:1200-1205 | When a raid ends, every predator node's crime level becomes 0 and nothing else changes. |
| Nodes.ResetCrimeLevels | v03.js:1201-1205 | The reset loop yields exactly `ClearCrime`. |
| Nodes.NodeSpawn | v03.js:1242-1247 | The timer advances and resets at the interval. A resource of the node's kind appears exactly when the timer is due, the core does not cover the spawn ring, and the point lies strictly inside the canvas. |
| Nodes.SpawnPeriodic | v03.js:1243-1247 | From a fresh timer, a node spawns once every `spawnInterval` updates. |
| Nodes.NodeUpdate | v03.js:1107-1251 | No node is added or removed. Other nodes change only by the crime reset. A marked node gets mass 0, and a dying predator node's resources are purged. A live node adds at most one resource at the end. A raid starts only when no raid was active, and a start is reported exactly when this node goes from not raided to raided. When this node's raid ends, every predator node's crime level is 0. Otherwise no other node changes. |
| Nodes.NodeUpdateKeepsValid | v03.js:1107-1251 | One node's update keeps the node list valid: at most one raid, only on a predator node; raid timers in (0, 3000]; crime never negative; spawn timers below their interval. |
| Nodes.UpdateNode | v03.js:1107-1251 | The imperative update equals `NodeUpdate`. The agents are re-balanced exactly when the node is a live predator node under raid, and are otherwise unchanged. Re-balancing follows `Raids.Balanced`: nearest-first recruitment or farthest-first dismissal, with the target checked before each change. |
| Raids.Measure | v03.js:1129-1149 | The measuring loops yield the selected agents' total mass and their count. |
| Raids.Recruit | v03.js:1152-1174 | Only idle enforcers join, nearest first. Afterwards the raid mass meets the target of 4 × the predator mass inside, or nobody is idle. Before the last recruit in nearest-first order joined, the running mass was still below the target, so recruiting stops as soon as the target is met. The running mass is the real raid mass. The stopping rule pins the result down only when masses are non-negative. Live agents always are, since they stay above the death floor of 5. |
| Raids.Dismiss | v03.js:1176-1190 | Only this node's raiders leave, farthest first. Afterwards the raid mass is at or under the target, or nobody is left. Before the last dismissal in farthest-first order, the running mass was still above the target, so dismissal stops as soon as the mass is at or under it. |
| Raids.Balance | v03.js:1129-1190 | Below the target the force is recruited, above it dismissed, at it left alone. In each case the stopping rule of `Recruit` or `Dismiss` holds for the final raid mass. As for `Recruit`, that rule is exact only for non-negative masses. The reported force is the number of raiders, and only the raid fields of agents change. |
| Feeding.FirstEdible | v03.js:1441-1553 | The meal is the first collided, untaken resource the agent's type may eat (given whether a raid is active), and absent exactly when there is none. |
| Feeding.FindEdible | v03.js:1441-1555 | The resource scan with its break yields `FirstEdible`. |
| Feeding.PartnerNearest | v03.js:1511-1522 | A chosen sharing partner is an eligible agent closer than the cooperation range + 1 that is as near as any eligible agent. No partner means no eligible agent is closer than range + 1. |
| Feeding.FindPartner | v03.js:1511-1522 | The partner scan yields `Partner`. |
| Feeding.Counted | v03.js:1530-1537 | Sharing with a defector counts one more share for it. It joins the exclusion set exactly when its count reaches the threshold, and nobody else joins. |
| Feeding.ShareConserves | v03.js:1504-1541 | The co-op pool gains the investment, and investment plus the shares given to agents equals the cooperator's gain. |
| Feeding.ShareSplits | v03.js:1523-1538 | With a partner that is not excluded, each side gets half the net gain and nobody else changes. The exclusion counter rises by the number of newly excluded defectors, which is at most one. |
| Feeding.ShareKeepsAll | v03.js:1523-1541 | With no partner, or an excluded defector as the nearest one, the cooperator keeps the whole net gain. |
| Feeding.EatPunishes | v03.js:1467-1475 | A defector at a co-op resource loses the punishment share of its mass and is teleported. The pool is unchanged and the punishment counter rises by one. |
| Feeding.EatFeeds | v03.js:1481-1545 | A non-cooperator gains its yield (doubled for a competitor at a predator resource). The pool is unchanged, and a predator at any predator-node resource increments that counter. |
| Feeding.EatCooperatorConserves | v03.js:1455-1541 | For a cooperator, the pool gain plus the agents' mass gain equals the non-negative base gain. |
| Feeding.EatGrows | v03.js:1455-1545 | A meal keeps every agent's id, never shrinks an exclusion set and never lowers a counter. |
| Feeding.EnforcersNeverEat | v03.js:1450-1453 | An enforcer's turn is its own update and nothing more. |
| Feeding.FeedOneGrows | v03.js:1434-1555 | One agent's turn keeps ids, exclusion sets and counters monotone. |
| Feeding.FeedUpToTakesOnce | v03.js:1547-1553 | Across the loop, every resource is taken at most once, at most one per agent, and every taken index is in range. |
| Feeding.FeedUpToWellBehaved | v03.js:1434-1556 | Across the loop, the list keeps its length and every agent its id, and no counter falls. |
| Feeding.FeedAll | v03.js:1434-1556 | The meal loop yields `FeedUpTo` over all agents. It keeps every type in place, never lowers a counter, and takes each resource at most once. |
| Encounters.Stolen | v03.js:1685-1687 | A theft takes rate × mass, capped so the victim keeps the death floor. |
| Encounters.TheftFacts | v03.js:1684-1711 | A theft of nothing changes nothing. Otherwise the victim stays at or above the floor and the predator gains exactly what the victim loses, so total mass is unchanged. The predator's crimes and `theftsCommitted` rise by one, one crime event is logged, and the predator pool rises by 10% of the amount. The nodes become `AddCrime` of the amount at the predator's position. The predator's and the victim's other fields, every other agent and the jail are unchanged. |
| Encounters.AddCrimeFacts | v03.js:1703-1710 | Only the first unraided predator node containing the theft gets the crime added. |
| Encounters.BackupFacts | v03.js:1605-1630 | The list is unchanged when the raid is over or no enforcer is idle. Otherwise exactly one agent changes: the nearest idle enforcer, the first one on a tie, which joins the raid. |
| Encounters.Blows | v03.js:1576-1595 | In raid combat the enforcer loses the combat drain, and the index returned is where the enforcer now sits. |
| Encounters.DrainFacts | v03.js:1576-1636 | Both fighters lose the drain. A defeated predator leaves the list and is jailed with its drained mass. Its pre-drain mass is credited to `predatorMassRecovered`, and no arrest is counted. A defeated enforcer leaves the list and calls `Backup`. The loop restarts exactly then. The outer index follows the enforcer. Nodes, crimes and pools are unchanged. |
| Encounters.ConfrontFacts | v03.js:1638-1680 | An arrest jails the predator, counts one arrest, credits its mass to `predatorMassRecovered` and removes that mass from the agents. An unwitnessed bribe counts one bribe and destroys the bribe. A witnessed bribe removes the corrupt enforcer and its mass and counts one caught enforcer. The new agent list is given for each case. A bribe jails nobody. Each case gives the whole new stats record, so no other counter moves. The outer scan restarts exactly after a witnessed bribe. No pool, node or crime event changes. |
| Encounters.MeetLawful | v03.js:1573-1712 | Every encounter keeps the loop invariant `Lawful`. |
| Encounters.LawfulChain | v03.js:1559-1715 | The loop invariant carries from step to step. |
| Encounters.Resolve | v03.js:1573-1712 | One resolved pair keeps `Lawful` and leaves the loop indices resumable. |
| Encounters.Encounter | v03.js:1558-1715 | After the interaction loop: no commonfolk agent is lost, every predator that left is in jail, the jail grows only by predators, no enforcer is added, counters only grow, there is one crime event per theft, there are no more arrests than jailings, the predator pool only grows, and nodes change only by rising crime. |
| Crimes.NearestCoop | v03.js:2172-2181 | The flee target is a co-op node no farther than any other, and absent exactly when there are none. |
| Crimes.WatchFacts | v03.js:2157-2185 | The scan only sets flee flags toward the nearest co-op node and never clears one. It reports a witness exactly when someone started fleeing. |
| Crimes.WatchCause | v03.js:2157-2185 | Anyone newly fleeing was within the crime flee radius of a crime at most 60 ticks old. |
| Crimes.CrimesLeft | v03.js:2149-2190 | After the scan, the log is empty if anyone was alarmed, and otherwise holds exactly the crimes at most 60 ticks old. |
| Crimes.WitnessCrimes | v03.js:2149-2190 | The imperative scan yields `ProcessCrimes`. |
| Sweep.SweepDead | v03.js:1718-1725 | The survivors keep their order, and an agent survives exactly when its mass is above the death floor. |
| Sweep.SweepNone | v03.js:1718-1725 | With nobody at the floor, the sweep changes nothing. |
| Sweep.RemoveConsumed | v03.js:1730-1734 | The splice loop over the descending indices yields `Kept`. |
| Sweep.ConsumedRemoved | v03.js:1728-1734 | Removing the eaten resources shortens the list by their number and keeps every uneaten resource. |
| Governance.LayoffQuota | v03.js:1753-1756 | The layoff quota is ⌈deficit / max(0.1, salary)⌉, here at least 1. |
| Governance.FireCensus | v03.js:1757-1764 | Layoffs remove only enforcers: the quota, or all of them if there are fewer. |
| Governance.FireKeepsOthers | v03.js:1757-1764 | Layoffs keep every non-enforcer in its order. |
| Governance.FireFromBack | v03.js:1758-1764 | The enforcers laid off are the last ones in the list. |
| Governance.LayOff | v03.js:1757-1764 | The backward splice loop yields `Fire`. |
| Governance.RankingRichest | v03.js:1769-1770 | The ranking lists non-enforcers, richest first. |
| Governance.RankingDistinct | v03.js:1769-1770 | The ranking names each agent at most once, and never an enforcer. |
| Governance.RankingComplete | v03.js:1769-1772 | A ranking shorter than five holds every non-enforcer. |
| Governance.RankTaxable | v03.js:1769-1772 | The filter and sort yield `Ranking`. |
| Governance.LevyConserves | v03.js:1772-1778 | The tax taken plus the agents' remaining mass equals their former mass, and the tax is non-negative. |
| Governance.LevyChanges | v03.js:1772-1778 | Only the ranked agents are taxed, each once. |
| Governance.CollectTaxes | v03.js:1771-1779 | The tax loop yields `Levy`. |
| Governance.EnforcerSpot | v03.js:1791-1800 | A hire appears at the canvas centre when there is no co-op node, and otherwise at some co-op node. |
| Governance.TaxesFacts | v03.js:1768-1779 | The public pool gains exactly the tax, and total mass is conserved. Only the five richest non-enforcers are taxed, each by 1%. Every untaxed non-enforcer is no richer than a taxed one. When fewer than five are taxed, every non-enforcer is taxed. |
| Governance.SalariesPaid | v03.js:1747-1749 | A pool that covers the payroll just pays it. |
| Governance.Layoffs | v03.js:1751-1766 | After a deficit, the pool is 0 and only enforcers are removed, as many as the quota allows. The others are unchanged. |
| Governance.GovernPool | v03.js:1741-1803 | The public pool ends non-negative, and the taxed agents keep their places. One enforcer is hired exactly when the pool after salaries and tax reaches 2500. It appears at `EnforcerSpot`'s point and costs the pool 1000. Without a hire, the agents are the taxed agents and the pool just keeps the tax. Tax and hire together create no mass. |
| Governance.GovernStep | v03.js:1741-1803 | The imperative governance step yields `Govern`. |
| Investment.SpotClear | v03.js:1817-1824 | The overlap scan reports a clear spot exactly when no node's spawn circle overlaps. |
| Investment.FirstClear | v03.js:1815-1826 | The attempt chosen is the first clear one among the ten, and absent exactly when none is clear. |
| Investment.FindSpot | v03.js:1815-1826 | The bounded placement loop yields `FirstClear`. |
| Investment.InvestFacts | v03.js:1807-1839 | Below the threshold nothing changes. A node of the kind is built exactly when the pool reaches the threshold and some attempt is clear. It is then appended, the pool drops by the threshold, and the node overlaps no other. Otherwise the pool and the nodes are as before, which is the refund. |
| Investment.InvestSeparated | v03.js:1842-1874 | Investment keeps all spawn circles apart. |
| Investment.SpotInArena | v03.js:1850-1851 | A new node lies at least its spawn radius inside each canvas edge. |
| Population.HideoutFacts | v03.js:1895-1901 | A released predator lands in a predator node exactly when one exists. That node is a raided one whenever some raid is on. |
| Population.LandImmunity | v03.js:1899-1913 | Immunity is 300 exactly when there is no predator node, and 0 otherwise. |
| Population.LandInside | v03.js:1903-1906 | Landing in a node puts the agent strictly inside its spawn radius. |
| Population.ReleaseDue | v03.js:1877-1933 | The release loop appends the releases and keeps, in order, exactly the entries not yet due. |
| Population.ReleasesFacts | v03.js:1886-1929 | Every due entry is released with its own draw, and releases plus remaining entries account for the whole jail. |
| Population.ReleaseKeepsHeadcount | v03.js:1886-1929 | Release keeps every type's head count: released plus still jailed equals those jailed before. |
| Population.FreedFacts | v03.js:1894-1926 | A released agent keeps its id and type, with the base mass (above the floor), no crimes and level 0. Its immunity is 300 exactly when there is no predator node. |
| Population.KeptFacts | v03.js:1886 | An entry stays in jail exactly when the frame has not reached its release time. |
| Population.CountJailed | v03.js:1952-1956 | The jail counting loop yields the jailed head count. |
| Population.ReseedCensus | v03.js:1937-2011 | Reseeding adds up to four agents at the end. For each commonfolk or predator type, it adds one exactly when the roll allows, the population is non-empty, and the type, alive plus jailed, is below ⌊total × natural share⌋. It never adds an enforcer. |
| Population.ReseedStep | v03.js:1937-2011 | The imperative reseed yields `Reseed`. |
| Simulation.Spawn | v03.js:1413-1419 | A resource is appended exactly when the list is below its cap and the roll is under the spawn rate, so the cap is kept. |
| Simulation.InvestKeepsValid | v03.js:1807-1874 | Investment keeps the node list valid. |
| Simulation.LawfulKeepsValid | v03.js:1558-1715 | The interaction loop keeps the node list valid and jails only predators. |
| Simulation.SweepKeepsValid | v03.js:2127-2135 | The dead-node splice keeps the node list valid. |
| Simulation.AgentsPass | v03.js:1430-1737 | After `updateAgents`, nobody is at the floor and no commonfolk agent or enforcer has been added. Every predator that left is in jail or dead, the crimes and jail only grew, nodes stay valid, counters only grew, and the resource list did not grow. |
| Simulation.NodesPass | v03.js:2218 | Updating every node in order keeps the node list valid, adds or removes no node, and keeps every agent's type. At most one raid starts, and one starts exactly when some node that was not under raid is under raid afterwards. |
| Simulation.InvestStep | v03.js:1807-1839 | The imperative investment step yields `Invest`. |
| Simulation.World.constructor | v03.js:1369-1410 | A fresh world has the starting agents, empty lists and pools, zeroed counters and frame 0, and is valid. |
| Simulation.World.SpawnResources | v03.js:1413-1419 | Only the resource list changes, as `Spawn` says. |
| Simulation.World.UpdateJail | v03.js:1877-1933 | Due prisoners join the agents and the rest stay in jail. Nothing else changes and the world stays valid. |
| Simulation.World.UpdatePopulation | v03.js:1937-2011 | Only the agent list changes, as `Reseed` says. Each newcomer gets the world's `radiusOf` of its start mass. |
| Simulation.World.UpdateNodes | v03.js:2218 | The node list stays valid and keeps its length, and agents keep their types. `predatorNodeRaids` rises by one exactly when a node came under raid, and no other counter moves. Pools, jail, crimes and frame are unchanged. |
| Simulation.World.UpdateAgents | v03.js:1430-1737 | The agents pass as `AgentsPassed` states it, with the public pool and the frame unchanged. |
| Simulation.World.ProcessCrimeEvents | v03.js:2149-2190 | Only the agents and the crime log change, as `ProcessCrimes` says. |
| Simulation.World.UpdateGovernance | v03.js:1741-1803 | Only the agents and the public pool change, as `Govern` says, and the pool stays non-negative. A hired enforcer gets the world's `radiusOf` of the enforcer start mass. |
| Simulation.World.UpdateInvestment | v03.js:1807-1874 | The pool, the nodes and the built counter change as `Invest` says, and nothing else changes. |
| Simulation.World.SweepNodes | v03.js:2127-2135 | Nodes with mass at or below 0 leave the list in order. Nothing else changes. |
| Simulation.World.SubTick | v03.js:2215-2224 | One sub-tick runs the phases in the script's order, keeps the world valid and advances the frame by one. |
| Simulation.World.Frame | v03.js:2209-2235 | A frame runs max(1, speed) sub-ticks and then the once-per-frame phases, keeps the world valid and advances the frame by max(1, speed). |

## Left out

- Rendering and UI are left out: drawing, floating texts, `updateStats`, the DOM, speed buttons and `requestAnimationFrame`. They are output or wiring and have no effect on the state.
- Steering geometry is an input (`Agents.Steer`), because it is trigonometry and random headings. This covers `applyRepulsionForce`, the movement parts of the three AI routines, the seek helpers, and the bounce inside raided nodes.
- The speed cap of `Agent.update` (v03.js:505-512) is left out. It rescales velocity by a square root and only affects the steering that is already an input.
- `calculateRadius` is an opaque parameter `radiusOf`, because it uses `Math.sqrt` and `Math.log`. Every agent the model creates, hired, reseeded or released, gets `radiusOf` of its mass; the starting agents are given as they are.
- `Math.random()` draws and `getRandomID` are inputs: draws in [0, 1) where the code indexes with them, ids as given naturals.
- Floating point and `NaN` are left out. Masses are exact reals, so the script's `isNaN` guards and the skips of invalid entries never fire in the model.
- The stub `findTopPredatorAndClosestEnforcer` (v03.js:1319, 1423) is left out because it does nothing.
- The starting-population loops of `initializeSimulation` are left out. The constructor takes the starting agents as a parameter.
- `initializeSimulation` does not clear `recentCrimes`, so a reset keeps old crime events. The constructor models a fresh page, where the log is empty.
- Simulation.World.UpdateNodes: states invariants, frame conditions and the raid counter, not the agents and resources after the pass. Each node's step is described exactly by `Nodes.UpdateNode`.
- Simulation.NodesPass: states invariants and the raid count only, not the agents and resources after the pass. Each step is exactly `Nodes.UpdateNode`.
- Simulation.World.UpdateAgents: states the invariant `AgentsPassed`, not the exact new lists. The interaction loop restarts after removals, so its order is given only as invariants.
- Simulation.AgentsPass: states `AgentsPassed`, which is weaker than an exact description, for the same reason.
- Encounters.Encounter: states the loop invariant `Lawful`, not which pair meets when. Each single meeting is described in full by `Encounters.TheftFacts` (with `Encounters.AddCrimeFacts` for the den that gets the crime), `Encounters.DrainFacts` and `Encounters.ConfrontFacts`.
- Simulation.World.SubTick: states validity and the frame count. Each phase's exact effect is in its own method's contract.
- Simulation.World.Frame: states validity and the frame count, for the same reason.
- Agents.PredatorRaidFlag: states only that `isRaiding` may change, and to what. The co-op early return is in the body, not in a separate property.
