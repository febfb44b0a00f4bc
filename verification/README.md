# Elevator group controller: model and proofs

A Dafny model of an elevator-group controller written in Go: several cars, one controller per car,
cooperating over broadcast UDP. `dafny verify dfyconfig.toml` checks everything. The number of floors
(at least 2), the number of cars (at least 1) and all timing settings are constants without a value, so
every statement holds for any of them.

| file | what it models | main results |
|---|---|---|
| `Settings.dfy`, `Wrappers.dfy`, `Requests.dfy` | settings, elevator state, stop and direction policy | the scanning loops compute the policy's predicates |
| `CostFunction.dfy`, `CostProperties.dfy`, `ServiceOrder.dfy` | `TimeToServeOrder` | it terminates, its result is a time on the simulated trajectory, tight bounds that are attained, the exact distance from the intended cost, the trajectory in closed form |
| `ControllerEvents.dfy`, `Controller.dfy` | the event cases of `ControllerModule`, as transitions and as a class updated in place | weak invariant, cab orders, completions and door lamp over every run |
| `ClosedSystem.dfy`, `Refinement.dfy`, `Answers.dfy` | the controller in a closed system | strong invariant, starvation freedom within 2(N-1) arrivals, every closed run without further orders makes the simulated visits, the cost that is answered is the time of the visits that are made |
| `Commands.dfy` | what the controller tells driver, lamps and the other elevators | the driver shows the car, waiting orders are lit, availability is known |
| `Assigner.dfy`, `AssignmentProtocol.dfy`, `Agreement.dfy`, `Disagreement.dfy` | the assigner, and the decision on one order among all nodes | no order is lost at the decision, agreement on the cheapest elevator, a decision at the last check even when costs differ |
| `ActiveOrders.dfy`, `Redistribution.dfy` | the replicated hall order map and the hand-over of orders | the map is its event history, hand-over conserves orders |
| `PacketWindow.dfy`, `ExactlyOnce.dfy`, `Transmitter.dfy`, `AckedBroadcast.dfy` | acknowledged broadcast with duplicate suppression | window in closed form, exactly-once delivery, packets in flight kept apart, ack soundness |
| `FailureDetector.dfy` | heartbeat loss counting | the slices are functions of one number; exact disconnect tick; alternation |

Handlers that the source writes as code over mutable state are classes here; each method is proved to
compute a transition function, and the theorems are about runs of those functions. Matrices of 0 and 1 are
abstracted as the set of their cells that hold 1. `{:induction false}` stands on lemmas by induction, whose
bodies are their proofs, and where Dafny would otherwise try an induction that the proof does not need.

## Where the code is not what it seems

- `request_clearAtCurrentFloor` hands its parameter, not the car's floor, to the callback. The simulation
  therefore ends at the first stop that clears any order of the announced type. `CostIsIntendedIff` says
  from the orders alone when the result is still the intended one; `CostIgnoresFloor` is a concrete case
  where it is not.
- A floor update at the top or bottom floor that is not a stop reports the floor as completed and stops the
  motor while the state stays Moving (`ReportedWithoutStopIff`). It happens at start-up
  (`ReportedAtStartUp`), and never in the closed system (`CompletionsAreStops`).
- `StartElevator` in a car that has already been seen at the top floor breaks the invariant on which
  indexing in `TimeToServeOrder` rests (`StartKeepsInvariantIff`).
- A completion reported by another elevator can leave a moving car with nothing ahead; a new order for its
  last floor then opens the door between floors (`MovingCarAndNewOrder`, reached in
  `DoorOpensBetweenFloors`), otherwise the next arrival is a stop and repairs the state
  (`NextArrivalRestoresInvariant`).
- An order for the floor where the door stands open is served at once, but the simulation first travels
  on if the floor is not a stop in the direction of travel (`ServedAtOpenDoor`,
  `SimulationMissesOpenDoor`).
- The module documentation speaks of 100 missed messages one second apart; the code counts
  `CONNECTION_CHECK_TRESHOLD` silent intervals after the first one that saw a message.
- A receiver acknowledges what it takes for a copy. One that was cut off while 255 packets of a sender went by
  acknowledges the next packet with a remembered ID and never publishes it (`ReusedIDIsLost`), so a sender
  can be done although nobody has published (`DoneUnpublished`; exactly when, `SoundIff`).
- Only the node that asked for the orders of a lost elevator deletes them from its map; the message that
  they are handled is not sent to the others, which keep them (`MapsDifferIff`).
- An elevator that expects no acknowledgement never signals that a packet is done
  (`UnansweredIsNeverDone`); the entry in its table of waiting routines stays until a packet with the same
  ID replaces it.

## Assumptions of the theorems

- All-events results (`StepKeepsWeakInvariant`, `CabOrdersSurvive`, `StepIsSafeIff`, `ReportedWithoutStopIff`)
  allow any event in any state, timers that fire when not armed included. `DoorLampSafety` assumes that
  no floor update arrives while the door is open.
- Closed-system results assume that floor updates come only from a moving car and name the next floor,
  that timers fire only when armed, that completions are the car's own and handled while the door is open,
  and that the motor does not fail. Orders and obstructions are unrestricted. The first stop after start-up
  establishes the strong invariant.
- The decision theorems concern one order, with every node's view fixed during the round and each cost
  delivered to a node at most once. A view may leave out the node itself, as that of an unavailable elevator
  does. `NoOrderLost` needs nothing else: views may differ, costs may differ from node to node, checks may be
  lost, delayed, repeated or reordered, timers may fire at any time.
- `AckSoundness` and `Route` are about packets in flight: fewer than 256 further ones have been sent since.
  That the IDs of packets in flight differ is proved (`InFlightIDsDiffer`). `AckSoundness` also assumes
  that no acknowledgement of an earlier packet with the same ID is still in the network, and that no
  other elevator's window holds the ID. The latter is necessary (`SoundIff`), and holds for
  receivers that have accepted the sender's packets in order (`InOrderIsRecent`, `RecentIsNotRemembered`).

## Model

| member | source | states |
|---|---|---|
| Requests.RequestsAbove | elevator/controller_costFunction.go:109-118 | the scan over floors and buttons finds a request above exactly if there is one |
| Requests.RequestsBelow | elevator/controller_costFunction.go:119-128 | likewise below |
| Requests.RequestsShouldStop | elevator/controller_costFunction.go:46-70 | stops for the cab, for the hall button of its direction, when nothing is left ahead, and when it has no direction |
| Requests.RequestsChooseDirection | elevator/controller_costFunction.go:72-93 | the direction of the policy, from the two scans |
| Requests.RequestClearAtCurrentFloor | elevator/controller_costFunction.go:95-107 | clears exactly the car's floor; the callback fires for some cleared button, with the parameter floor |
| Requests.ChosenDirectionHasRequestAhead | elevator/controller_costFunction.go:72-93 | a direction is chosen exactly if another floor is requested, has a request ahead, and is kept exactly while the old one has |
| CostFunction.Depart | elevator/controller_costFunction.go:32-43 | one turn of the loop that does not return keeps the order, stays within the floors and lowers the rank: the loop terminates |
| CostFunction.RankBound | elevator/controller_costFunction.go:46-93 | an order is at most 2(N-1) arrivals away, one less if it is on another floor than the car |
| CostFunction.Trajectory | elevator/controller_costFunction.go:32-43 | the visits up to the one that serves the order; it is cleared at the last and at no earlier one, and only stops clear |
| CostFunction.TimeToServeOrder | elevator/controller_costFunction.go:7-44 | from every weak-invariant state the loop terminates, stays within the floors, and returns the time of the first stop that clears an order of the type |
| CostFunction.LoopTurn | elevator/controller_costFunction.go:32-43 | a turn returns exactly at a stop that clears an order of the type, and otherwise costs a floor of travel and the door if it stops |
| CostFunction.EnterSimulation | elevator/controller_costFunction.go:19-30 | the state and the time with which the loop is entered, or the answer at once for an idle car with no other floor requested |
| CostFunction.SimulateFloor | elevator/controller_costFunction.go:32-43 | one turn arrives exactly at a stop that clears an order of the type, and otherwise moves to the next state of the trajectory |
| CostProperties.StopsAtDistinctFloors | elevator/controller_costFunction.go:33-39 | stops that do not serve the order are at pairwise different floors, none of them the order's |
| CostProperties.SimulatedMoves | elevator/controller_costFunction.go:41-42 | the sweep makes at most 2(N-1) moves, one less for a car under way |
| CostProperties.CostBound | elevator/controller_costFunction.go:17-44 | lower and upper bound of the cost and of the intended cost from every weak-invariant state |
| CostProperties.MaxCostAtLeastOffset | elevator/controller_costFunction.go:17-44 | the upper bound is within TRAVEL_TIME/2 + 2(N-1) travel + (N-1) door times |
| CostProperties.BoundAttained | elevator/controller_costFunction.go:17-44 | the upper bound is the cost itself for explicit states, for every number of floors |
| CostProperties.CostAgainstReference | elevator/controller_costFunction.go:11-37 | the cost never exceeds the intended one, and equals it exactly if no order of the type is cleared at an earlier visit |
| CostProperties.CostIgnoresFloor | elevator/controller_costFunction.go:95-107 | a concrete state in which the coded and the intended cost differ |
| CostProperties.IdleCost | elevator/controller_costFunction.go:20-24 | an idle car without orders costs TRAVEL_TIME for each floor to the order, and nothing on its own floor |
| CostProperties.OwnFloorCost | elevator/controller_costFunction.go:28-37 | a cab order for its floor costs a standing car nothing, and -(DOOR_OPEN_TIME/2) with the door open: the lower bound is attained |
| CostProperties.OpenDoorCost | elevator/controller_costFunction.go:28-29 | every order costs a car with its door open DOOR_OPEN_TIME/2 less than the same car obstructed |
| CostProperties.MovingCost | elevator/controller_costFunction.go:25-27 | every order costs a moving car TRAVEL_TIME/2 more than a car obstructed at its next floor |
| ServiceOrder.ClearedAtWait | elevator/controller_costFunction.go:32-93 | every order is cleared on the visit that the closed form names, and on no other |
| ServiceOrder.TrajectoryLength | elevator/controller_costFunction.go:32-93 | the number of moves until an order is served, in closed form |
| ServiceOrder.CostIsIntendedIff | elevator/controller_costFunction.go:95-107 | equality with the intended cost, and strict inequality, decided from the orders before the call |
| ServiceOrder.MovesAreLeastWait | elevator/controller_costFunction.go:32-44 | the loop makes as many moves as the nearest order of the type is away |
| ControllerEvents.StartKeepsInvariantIff | elevator/controller.go:406-410 | starting keeps the weak invariant exactly below the top floor, so it holds initially |
| ControllerEvents.StartAtTopBreaksInvariant | elevator/controller.go:406-410 | a floor update of the top floor before the start is enough to break it |
| ControllerEvents.StepKeepsWeakInvariant | elevator/controller.go:88-187 | every event keeps: Idle stands, Moving has a direction that stays within the shaft |
| ControllerEvents.CabOrderSurvivesStep | elevator/controller.go:103-183 | a cab order leaves only in a step that ends at its floor with the door open or obstructed |
| ControllerEvents.CabOrdersSurvive | elevator/controller.go:88-187 | the same over every run of every event |
| ControllerEvents.ReportedWithoutStopIff | elevator/controller.go:90-99 | the exact case in which a completion is reported although the door is not open there |
| ControllerEvents.ReportedAtStartUp | elevator/controller.go:366-369 | a start-up in which floor 0 is reported as completed and the motor stops, while the car stays Moving without a watchdog |
| ControllerEvents.StepIsSafeIff | elevator/controller.go:358-372 | commands show an open door with the motor running exactly for a floor update that passes with the door open |
| ControllerEvents.DoorLampSafety | elevator/driver.go:62-73 | without such updates the driver never does, in whatever order, with whatever losses and repetitions the outputs arrive |
| Commands.StepShowsCar | elevator/controller.go:88-187 | in the closed system every command has the floor, door and direction of the car after the event, and every change of these is commanded |
| Commands.DriverShowsCar | elevator/driver.go:51-73 | handled in order over a closed run, the commands leave floor indicator, door lamp and motor as the state says |
| Commands.ShaftEndsStopMotor | elevator/controller.go:358-369 | a floor update at an end of the shaft stops the motor, in every state |
| Commands.WaitingStaysLit | elevator/controller.go:103-183 | no event puts out the lamp of a waiting order, and a new one is lit unless it is accepted in single mode |
| Commands.WaitingOrdersAreLit | elevator/driver.go:53-97 | so over every closed run the lamps of waiting orders are lit |
| Commands.CompletionPutsOut | elevator/controller.go:103-111 | a completion puts out the hall lamps of its floor, and the cab lamp exactly if it is the car's own |
| Commands.AssignmentLights | elevator/controller.go:176-180 | another elevator's assignment lights exactly its lamp unless in single mode, and changes nothing else |
| Commands.ServedLampsGoOut | elevator/controller.go:315-348 | an order served at once by a standing car leaves its floor dark, but for the lamp of a cab order |
| Commands.FreedLampsGoOut | elevator/controller.go:158-163 | so does the end of an obstruction with nothing left to do |
| Commands.AvailabilityIsKnown | elevator/controller.go:88-187 | every event publishes the availability it changes, and none that is not true |
| Commands.AvailabilityStaysKnown | elevator/controller.go:147-170 | so over every run of every event the last one published is the car's |
| Commands.GivesUpHallOrders | elevator/controller.go:166-170 | an obstruction timeout and a motor stop publish that the car is unavailable and give up exactly the hall orders |
| Commands.MotorRetries | elevator/controller.go:255-277 | after a motor stop the car is driven on in its direction, a standing one towards the inside of the shaft |
| Commands.TimersAreUsedUp | elevator/controller.go:88-187 | a timer that fired is off, and the watchdog is set for available cars only |
| Commands.ObstructionIsTimed | elevator/controller.go:141-170 | over every closed run, an obstructed car has its timer running or has given up its hall orders |
| Controller.ControllerModule.constructor | elevator/controller.go:55-85 | the state after start-up, with the backed-up cab orders |
| Controller.ControllerModule.OnFloorUpt | elevator/controller.go:90-102 | refines the floor update transition, outputs included |
| Controller.ControllerModule.ElevatorControlOnFloorUpt | elevator/controller.go:358-373 | refines the stop, end-of-shaft and pass-by cases |
| Controller.ControllerModule.OnOrderComplete | elevator/controller.go:103-115 | clears the hall orders of the floor and nothing else |
| Controller.ControllerModule.OnNewOrder | elevator/controller.go:116-121 | answers with the cost if available, and changes nothing |
| Controller.ControllerModule.OnDoorTimer | elevator/controller.go:122-136 | refines the door timeout |
| Controller.ControllerModule.OnObstructed | elevator/controller.go:137-165 | refines obstruction and its end |
| Controller.ControllerModule.OnObstructTimer | elevator/controller.go:166-170 | becomes unavailable and withdraws its hall orders |
| Controller.ControllerModule.OnNewCabOrder | elevator/controller.go:171-175 | accepts the order, then lights its lamp |
| Controller.ControllerModule.OnAssigned | elevator/controller.go:176-183 | lights the lamp unless alone, and accepts the order if it is the car's own |
| Controller.ControllerModule.OnMotorStop | elevator/controller.go:255-277 | becomes unavailable, withdraws hall orders and retries in its direction |
| Controller.ControllerModule.NewOrderController | elevator/controller.go:300-349 | refines the four behaviour cases of a new order |
| Controller.ControllerModule.ElevatorCtrFromOrder | elevator/controller.go:377-394 | refines the command for a new order |
| Controller.ControllerModule.ChooseDirUptState | elevator/controller.go:397-404 | direction and behaviour are set together |
| Controller.ControllerModule.ClearOrderOnCurrentFloor | elevator/controller.go:351-355 | exactly the orders of the car's floor are removed |
| Controller.ControllerModule.DeleteHallOrders | elevator/controller.go:291-297 | exactly the hall orders are removed |
| ClosedSystem.StepKeepsStrongInvariant | elevator/controller.go:88-187 | in the closed system a moving car has a request ahead, an open door none here, an idle car none at all; the watchdog is armed exactly while moving, the obstruction timer exactly while an available car is obstructed |
| ClosedSystem.StrongInvariantHolds | elevator/controller.go:88-187 | the same in every state of every closed run |
| ClosedSystem.FirstStopEstablishesStrongInvariant | elevator/controller.go:358-365 | the first stop opens the closed system |
| ClosedSystem.RemoteCompletionKeepsInvariantIff | elevator/controller.go:112-114 | a remote completion keeps it exactly if the car does not move, or has an order ahead that is on another floor or a cab order |
| ClosedSystem.NextArrivalRestoresInvariant | elevator/controller.go:358-365 | otherwise the next arrival restores it |
| ClosedSystem.MovingCarAndNewOrder | elevator/controller.go:307-315 | when a moving car keeps its direction on a new order, and when it opens its door between floors |
| ClosedSystem.DoorOpensBetweenFloors | elevator/controller.go:307-315 | a run from start-up in which a remote completion and a cab order open the door between floors, and the order goes without its completion being reported |
| ClosedSystem.ReversesOnlyWhenDone | elevator/controller_costFunction.go:72-93 | no event turns the car round while something is requested in its old direction |
| ClosedSystem.NeverStuck | elevator/controller.go:122-164 | a car with orders moves, or moves as soon as its door closes or is freed |
| ClosedSystem.OrderLeaves | elevator/controller.go:103-183 | an order leaves by service with the door open at its floor or, a hall order, by the obstruction timeout |
| ClosedSystem.ServiceIsReported | elevator/controller.go:300-349 | the event that serves an order publishes the completion of its floor |
| ClosedSystem.CompletionsAreStops | elevator/controller.go:90-183 | conversely, every completion that the closed system publishes is that of the car's floor with the door open |
| ClosedSystem.RankFalls | elevator/controller.go:300-404 | no event raises a waiting order's rank, new orders included, and every arrival lowers it |
| ClosedSystem.StarvationFreedom | elevator/controller.go:300-404 | whatever arrives, an accepted order is served or withdrawn within 2(N-1) floor arrivals |
| Refinement.ArrivalIsVisit | elevator/controller.go:358-373 | an arrival is the visit that the simulation makes there, and leads to its next one |
| Refinement.QuietEventKeepsCourse | elevator/controller.go:103-183 | own completions, obstructions, late door timeouts and other elevators' orders change neither the orders nor the next arrival |
| Refinement.ControllerRefinesSimulation | elevator/controller.go:358-404 | over every closed run without further orders the arrivals are the simulated visits, with the same floors, stops and cleared orders, and the order waits exactly until the last of them |
| Refinement.SimulationPredictsController | elevator/controller_costFunction.go:19-44 | from acceptance in any strong state, of an order that a moving car is given or that is on another floor than a standing car, every closed run without further orders makes the simulated visits, a standing start counting as the first |
| Refinement.ServedWhereItStands | elevator/controller.go:315-328 | an idle car at the floor opens at once, at cost 0 |
| Refinement.ServedAtOpenDoor | elevator/controller.go:329-348 | an order for the floor where the door stands open is served at once; the simulation sees that exactly if the floor is a stop, told from the order and the direction |
| Refinement.SimulationMissesOpenDoor | elevator/controller_costFunction.go:24-37 | a state in which such an order is served at once and simulated as a way up and back |
| Answers.AnswerInNumbers | elevator/controller.go:116-121 | the answer to a new order in each behaviour, in times and simulated visits; an unavailable car is silent |
| Answers.AnswerComesTrue | elevator/controller_costFunction.go:7-44 | the cost answered is the time to the next arrival and of the visits that the car makes on every closed run without further orders, until it first clears an order of the type |
| Assigner.AssignerModule.ReturnActiveElevatorsID | elevator/assigner.go:197-205 | exactly the active elevators, in increasing order |
| Assigner.AssignerModule.SingleElevatorAvailable | elevator/assigner.go:122-128 | true exactly if this is the only active elevator |
| Assigner.AssignerModule.RegisterOrder | elevator/assigner.go:155-181 | ready exactly if the registered elevators are the active ones |
| Assigner.AssignerModule.AssignElevToServeOrder | elevator/assigner.go:184-195 | the active elevator of least cost, of least ID among those |
| Assigner.AssignerModule.OnCostResult | elevator/assigner.go:68-79 | a choice is made exactly when the costs are complete |
| Assigner.AssignerModule.SameAssignedElevs | elevator/assigner.go:261-304 | true exactly if every active elevator has announced the same choice |
| Assigner.AssignerModule.OnCheck | elevator/assigner.go:214-246 | agreement, fallback on as many checks as active elevators, or waiting |
| Assigner.AssignerModule.OnDecideTimeout | elevator/assigner.go:247-253 | the timer falls back |
| Assigner.AssignerModule.OnAssignedOK | elevator/assigner.go:80-96 | the order goes to the agreed elevator, or to every active one, in single mode exactly if one elevator is active |
| Assigner.AssignerModule.OnAvailability | elevator/assigner.go:97-109 | status change and hand-over request |
| Assigner.AssignerModule.OnConnection | elevator/assigner.go:110-117 | status change and hand-over request |
| Assigner.CheapestIsUnique | elevator/assigner.go:184-195 | least cost with least ID determines the choice |
| AssignmentProtocol.UnanimousAgrees | elevator/assigner.go:282-299 | a check that makes a ballot unanimous speaks for every active elevator |
| AssignmentProtocol.StepKeepsInvariant | elevator/assigner.go:68-96 | choices are final and active, ballots hold announcements, agreements were announced by all |
| AssignmentProtocol.NoOrderLost | elevator/assigner.go:184-304 | under any views, losses and timers, once all who announced have decided, some node takes the order; a node need not even count itself as active |
| Agreement.ActiveElevatorsAgree | elevator/assigner.go:68-304 | with a shared view: active nodes are ready exactly at the last cost, make the same cheapest choice, agree exactly at the last check, never fall back; exactly one node takes the order, although inactive nodes receive the same costs and checks and decide too, also by their timers |
| Agreement.JudgedAtLastCheck | elevator/assigner.go:216-246 | undecided until the ballot is complete, then agreed if all choices are the same, and at once the fallback if not |
| Disagreement.DecidedWithoutTimer | elevator/assigner.go:210-246 | for any views and costs, a node that receives each active elevator's check once decides exactly at the last of them: on what all announced, else on the fallback |
| Disagreement.SameVerdict | elevator/assigner.go:210-304 | two such nodes with one view decide the same, even if the announcements differ |
| ActiveOrders.ActiveOrdersModule.AddHallOrders | elevator/activeOrders.go:71-77 | records an assignment; the map stays the set of pending orders |
| ActiveOrders.ActiveOrdersModule.RemoveHallOrders | elevator/activeOrders.go:80-86 | exactly the cells of the elevator and floor are cleared |
| ActiveOrders.ActiveOrdersModule.RemoveFloorHallOrders | elevator/activeOrders.go:87-91 | records a completion |
| ActiveOrders.ActiveOrdersModule.DeleteAllHallOrders | elevator/activeOrders.go:60-68 | records a deletion |
| ActiveOrders.ActiveOrdersModule.OnRequest | elevator/activeOrders.go:40-43 | the answer carries exactly the pending orders of the elevator |
| ActiveOrders.ActiveOrdersModule.OnAvailability | elevator/activeOrders.go:44-50 | an elevator forgets its own orders when it becomes unavailable and is not alone |
| ActiveOrders.ActiveOrdersModule.OnHandled | elevator/activeOrders.go:51-54 | a hand-over deletes the entry |
| ActiveOrders.PendingSplit | elevator/activeOrders.go:34-56 | what is pending after more events, from what was pending and what happened since |
| Redistribution.ExactlyOneAsks | elevator/assigner.go:97-106 | after an elevator becomes unavailable exactly one node asks, if any is active |
| Redistribution.ExactlyOneHands | elevator/assigner.go:110-117 | after a disconnection likewise, and it is the lowest active one |
| Redistribution.DistributeOrders | elevator/assigner.go:138-152 | one new order per set cell, in reading order with consecutive IDs, and the handled message after all of them |
| Redistribution.BatchDistinctIff | elevator/assigner.go:130-148 | the orders that one hand-over announces have different IDs exactly if there are at most 64 |
| Redistribution.BatchFits | elevator/assigner.go:138-148 | there are no more than cells of the map, so up to 32 floors the IDs are different |
| Redistribution.IDsDisjoint | elevator/driver.go:124 | hand-over IDs differ from every button ID and from other elevators' hand-over IDs |
| Redistribution.DeletedOrAnnounced | elevator/activeOrders.go:40-54 | what a hand-over deletes without announcing is exactly what was assigned in between |
| Redistribution.NothingLost | elevator/assigner.go:138-152 | nothing is lost if nothing is assigned to the elevator in between |
| Redistribution.MapsDifferIff | elevator/network.go:36-42 | the other nodes, which are not told of the deletion, hold exactly what was pending at the hand-over and has been neither removed nor assigned again since |
| PacketWindow.RecievedPackets.Handle | elevator/networkRX.go:66-95 | accepts exactly the IDs outside the window, and remembers them |
| PacketWindow.RecievedPackets.Remember | elevator/networkRX.go:86-93 | the registers, rotated when the current one is full, hold the window of the IDs accepted so far |
| PacketWindow.ClosedForm | elevator/networkRX.go:66-95 | current register, window length and contents after n accepts, without repeats; the third register is empty |
| PacketWindow.InWindowIff | elevator/networkRX.go:71-85 | an ID is remembered exactly if it was accepted less than the window length ago |
| PacketWindow.WindowStep | elevator/networkRX.go:86-93 | accepting an ID brings nothing else into the window |
| ExactlyOnce.PacketIDIff | elevator/networkTX.go:87 | IDs coincide exactly for packets of one sender 256 apart |
| ExactlyOnce.ExactlyOnceDelivery | elevator/networkRX.go:40-48 | with timely copies and late reuse the published packets are the first arrivals |
| ExactlyOnce.ReusedIDIsLost | elevator/networkRX.go:71-85 | without late reuse it fails: packet number 256 is taken for a copy if number 0 was the last one accepted |
| ExactlyOnce.ExactlyOnceInOrder | elevator/networkTX.go:87-90 | in-order first arrivals make reuse late by themselves, for windows up to 255 |
| ExactlyOnce.Receiver.OnPacket | elevator/networkRX.go:40-48 | acknowledges every packet of another elevator and publishes the new ones |
| Transmitter.TransmitterModule.OnConnection | elevator/networkTX.go:65-76 | the available elevators stay the others whose last connection event is a connect |
| Transmitter.TransmitterModule.OnEvent | elevator/networkTX.go:78-94 | own events get the next packet ID, and expect an acknowledgement of each connected other elevator, at most M-1 |
| Transmitter.InFlightIDsDiffer | elevator/networkTX.go:87-88 | packets in flight, with fewer than 256 sent after each, have different IDs |
| Transmitter.AckRouter.Add | elevator/networkTX.go:144-146 | the packet's routine is entered; every waiting packet in flight keeps its own entry |
| Transmitter.AckRouter.Done | elevator/networkTX.go:147-148 | the entry of the packet's ID is deleted; another waiting packet is cut off exactly if it is in flight with the same ID, never by a packet that is in flight itself |
| Transmitter.Transmit | elevator/networkTX.go:78-94 | the next own event gets its number and ID, and its routine an entry of its own |
| Transmitter.AckRouter.Route | elevator/networkTX.go:111-142 | forwards exactly other elevators' acknowledgements of own pending IDs; that of a waiting packet in flight reaches its own routine |
| AckedBroadcast.SendRoutine.constructor | elevator/networkTX.go:155-166 | one transmission, and no waiting if nobody is expected |
| AckedBroadcast.SendRoutine.OnTimeout | elevator/networkTX.go:170-178 | resends until the attempts are used up |
| AckedBroadcast.SendRoutine.OnAck | elevator/networkTX.go:179-185 | done exactly when enough different elevators have answered |
| AckedBroadcast.ActKeepsInvariant | elevator/networkTX.go:126-187 | acknowledgements come from elevators that have published |
| AckedBroadcast.AckSoundness | elevator/networkTX.go:155-187 | if no other elevator's window holds the ID at the start, done means enough other elevators have published, whatever packets in flight arrive meanwhile; at most 1 + ACK_ATTEMPTS transmissions |
| AckedBroadcast.DoneIff | elevator/networkTX.go:155-187 | on every run the register holds exactly the elevators whose acknowledgements arrived, done is signalled exactly when they are enough, and each timeout resends while attempts are left |
| AckedBroadcast.SoundIff | elevator/networkRX.go:40-48 | for a packet just sent with an answer expected: registered elevators have published on every run, exactly if no other elevator's window holds the ID |
| AckedBroadcast.DoneUnpublished | elevator/networkRX.go:40-48 | a concrete run in which done is signalled and nobody has published |
| AckedBroadcast.InOrderIsRecent | elevator/networkRX.go:66-95 | a receiver that has accepted packets in order remembers only the sender's last 255, for windows up to 255 |
| AckedBroadcast.UnansweredIsNeverDone | elevator/networkTX.go:164-166 | with nobody expected the packet is sent once and nothing is written to the done channel |
| FailureDetector.ConnectionCheck.OnAwake | elevator/networkCheck.go:53-70 | the entries stay functions of the history; connects when found disconnected |
| FailureDetector.ConnectionCheck.OnTick | elevator/networkCheck.go:71-88 | likewise; disconnects at the threshold |
| FailureDetector.EventsAlternate | elevator/networkCheck.go:50-90 | published events alternate, beginning with a connect |
| FailureDetector.EventsExactly | elevator/networkCheck.go:74-85 | a disconnect exactly at tick threshold + 1 after the last message, a connect exactly at a message that finds it disconnected |

## Left out

- Sockets, JSON, the sensor, lamp and motor byte messages: foreign calls. The driver is floor indicator, door lamp, motor and the set of lit buttons, and the writes of one command are one step.
- The event broker (`eventManager`) and logging: delivery in any order stands for them.
- Real time: timers are flags and steps; that a timer does fire is not modelled, so starvation freedom counts floor arrivals.
- Data races between `onMotorStop` and the main loop: its start, retries and end are separate atomic steps, and a retry may carry any direction.
- Several orders in decision at once: the routines of `checkForSameResult` share a channel and may take each other's events.
- Changes of view during a decision.
- The cab order backup file: it only gives the initial cab orders.
- `checkArgs` and the type tags: reflection.
- Button and obstruction polling: only order IDs of button presses are modelled.
- Lamps at start-up: `initLamps` puts out the hall lamps and leaves the cab lamps as they are.
- Integer width: counters are unbounded, except for the wrapped order and packet IDs.
- ControllerEvents.DoorLampSafety: does not cover the instant between the motor write and the lamp write of one command.
- AssignmentProtocol.NoOrderLost: does not model a second cost of the same elevator for the same order, which the packet window suppresses.
