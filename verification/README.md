# Klipper motion core: a Dafny model

Klipper splits a motion controller in two. The host plans moves, turns them into step times and sends
them to micro-controllers; the micro-controllers run them from timers. This project models the code in
which a mistake moves a machine wrongly or not at all, and proves what that code keeps over whole runs.

| file | models |
|---|---|
| `JunctionPlan.dfy` | the arithmetic of the look-ahead planner, on values |
| `LookAhead.dfy` | moves and the look-ahead queue as the host updates them, and whole runs of the queue |
| `Clock32.dfy` | the 32-bit tick counter and its wrap-around comparison |
| `Sched.dfy` | the timer list of the micro-controller, a linked list rewritten in place |
| `SchedRun.dfy` | whole runs of the timer list, with commands and callbacks that set and cancel timers |
| `MovePool.dfy` | the free list and the move queues threaded through one array of nodes |
| `Stepper.dfy` | a stepper motor: queueing, step events, position, stopping, whole runs |
| `Trsync.dfy` | trigger dispatch to the motors that share a pool, homing runs, shutdown |
| `DigitalOut.dfy` | digital outputs with software PWM and their safety timeout, whole runs |
| `Crc.dfy`, `MessageBlock.dfy`, `Vlq.dfy` | checksum, framing, resynchronisation, sequence numbers, integer codecs |
| `ClockSync.dfy`, `Endstop.dfy` | extending the counter, and the clock of an end stop contact |
| `Itersolve.dfy` | the iterative step-time solver over an arbitrary position function |

Code that changes things in place is modelled as classes and methods with loops; each such method is
tied to a function or to a ghost record written independently of it, and the claims are about those.
Counter values are 32-bit words (`Ticks`) next to unbounded ghost times. Shutdowns are results, not
preconditions.

## Main results

- *Planner.* For any interleaving of new moves with lazy and full flushes, the moves released are the moves
  asked for, in order, and each runs exactly the speeds that one offline plan over the whole sequence gives
  it, as a feasible trapezoid; the path is continuous and starts at rest; no move exceeds the speed or the
  acceleration of its request, or enters a junction faster than any limit given for it (`LookAhead.Drive`). No
  feasible plan starts a move faster than the backward pass allows (`JunctionPlan.StartIsGreatest`), and moves
  that share a peak cruise no faster than the reduced acceleration reaches over them (`JunctionPlan.PeakSpan`).
- *Timers.* The linked list refines a map from timers to unbounded times under add, delete and dispatch,
  whatever timers a callback adds and deletes, and every list search stops (`Sched.Scheduler.Dispatch`).
  Over every run of commands, passing time and callbacks, timers run in order of time; none runs at a time nobody
  asked for; and once the clock has passed the time of a timer it has run at that time, unless it was set again or
  cancelled before (`SchedRun.Run`).
- *Motors.* For every run the reported position is the count of step pulses signed by the direction pin
  (exactly while that is within 2^30), step times follow the closed-form timetable of the accepted moves,
  and a stopped motor neither steps nor keeps a move node until its clock is reset (`Stepper.Stepper.Drive`).
  Left alone, the motor takes every accepted step, if and only if no move is loaded too late for its first
  step; with the both-edge handler, always (`Stepper.Stepper.RunOut`). In every run the edges of an active motor,
  and an edge after a change of direction, are at least a pulse apart (`Stepper.Stepper.Drive`).
- *Move nodes.* Between commands every node is on the free list or in exactly one queue
  (`MovePool.Pool.Accounted`); a motor that goes from rest to rest leaves every node where it was.
- *Homing.* A trigger, whether a hit, a timeout or the host's command, latches the first reason, calls every
  attached signal once, and its motors emit no step in any later run that does not reset them
  (`Trsync.Trsync.Home`, `Trsync.Trsync.Drive`).
- *Outputs.* At every moment of every run the pin has the level of the last setting due, pulse by pulse; an
  output off its default or pulsing was set at most `max_duration` ticks ago; and updates that follow each other
  in time never shut it down (`DigitalOut.DigitalOut.Drive`).
- *Wire.* Parsing does not depend on how the byte stream is split; 64 sync bytes recover any parser state;
  every byte falls into an intact block, a skipped sync byte or a stretch that is thrown away and refused exactly
  once (`MessageBlock.Answers`); frames are delivered once and in order; integer lists survive every pairing of codecs; the checksum is
  the CCITT polynomial, and damage within two adjacent bytes of a block passes in exactly one way
  (`MessageBlock.DamagedBlock`).
- *Solver.* Steps are in order and in range, each where the motion crosses to the next step; at the end the
  commanded position is the start plus the net steps and is within half a step of the motion. The search stops
  before the end only when the queue refuses the next such step, or when all its guesses are used up
  (`Itersolve.GenStepsRange`).

Five claims that one might expect are false of the code. Each is stated with its exact condition and with an
input that fails it:

- `Stepper.ReportedExact`: a reported position is right if and only if it is within 2^30 of the start
  (`Stepper.ReportedTooFar`).
- `ClockSync.UptimeExact`: updates less than 2^32 ticks apart do not suffice (`ClockSync.GapOfOneWrapLost`);
  the extended counter is right if and only if each update comes less than 2^32 ticks after the last one that
  was due.
- `Vlq.SignedParseExact`: the host reads a micro-controller's signed integer exactly if and only if it is at
  least -2^26 (`Vlq.SignLost`).
- `Clock32.BeforeIsExact`: the comparison of counters is right for times less than 2^31 apart, and further apart if
  and only if their distance modulo 2^32 falls into the half that stands for its sign (`Clock32.HalfRangeMisread`).
- `MessageBlock.DamagedBlock`: a block damaged within two adjacent bytes is refused, unless the last content byte
  changed by 0x91 and the high checksum byte by 0x85, exactly then (`MessageBlock.DamageUnseen`).

## Assumptions

- Squared speeds, times and positions are reals. Square roots are an arbitrary exact root function; the
  geometric junction limits and the extruder's limit are an arbitrary non-negative cap.
- Timers in the list are less than 2^31 ticks apart, as the host promises (klippy/mcu.py:14-16). A callback
  does not delete its own timer, add one earlier than it, or add a timer that is already in the list, and
  sets its new time last.
- Interrupt handlers and commands are atomic, as they are with interrupts disabled.
- For outputs: the host's checks hold (cycle and `max_duration` below 2^31, start value equal to the default
  value when there is a timeout), updates are queued in order of time, at most 2^31 - 1 ticks ahead, and the
  timer runs when it is due.
- The clock, the pins and the failures of the step queue are parameters.

## Model

| member | source | states |
|---|---|---|
| `JunctionPlan.ProfileBounds` | klippy/toolhead.py:146-153 | both backward profiles are non-negative, ordered, within each move's limits, and change by at most its acceleration allows |
| `JunctionPlan.StartIsGreatest` | klippy/toolhead.py:144-149 | no feasible continuous plan that ends at rest starts any move faster than the backward pass |
| `JunctionPlan.McrIsGreatest` | klippy/toolhead.py:150-153 | the reduced profile is the greatest that can be stopped at the reduced acceleration |
| `JunctionPlan.PeakBounds` | klippy/toolhead.py:154-167 | a move given a cruise speed peaks at or above the start speeds on both sides, and above zero |
| `JunctionPlan.PeakSpan` | klippy/toolhead.py:154-169 | a peak is the speed that the reduced acceleration reaches over the moves that share it, between the reduced speeds at both ends, and none of these moves cruises faster |
| `JunctionPlan.CruiseIsGreatest` | klippy/toolhead.py:164-167 | an assigned cruise speed is the greatest that the limit, the peak and the length of the move allow |
| `JunctionPlan.CruiseFloor` | klippy/toolhead.py:172-179 | after the forward pass every cruise speed is positive, within its limit and at least the next reduced start speed |
| `JunctionPlan.PlanFloor` | klippy/toolhead.py:172-181 | the plan enters no move slower than the reduced profile |
| `JunctionPlan.PlanFeasible` | klippy/toolhead.py:146-181 | every planned move is feasible: speeds within limits, acceleration and deceleration fit its length |
| `JunctionPlan.PlanContinuous` | klippy/toolhead.py:172-181 | the speeds of a whole plan are continuous and go from rest to rest |
| `JunctionPlan.AppendRaises` | klippy/toolhead.py:144-153 | queueing more moves only raises the start speeds of earlier moves |
| `JunctionPlan.AnchorStable` | klippy/toolhead.py:154-163 | a move pinned to its limits stays pinned whatever is queued later |
| `JunctionPlan.PlanStable` | klippy/toolhead.py:154-181 | the plan before a pinned move does not depend on later moves |
| `JunctionPlan.LazyPointIsAnchor` | klippy/toolhead.py:154-163 | the flush point of a lazy flush is a pinned move inside the queue |
| `JunctionPlan.LazyPointIsLast` | klippy/toolhead.py:154-163 | a lazy flush stops where the moves after the last peak but one have slowed down, and finds nothing exactly when there are no two peaks |
| `JunctionPlan.SuffixPlan` | klippy/toolhead.py:146-181 | planning from a pinned move on, with the earlier moves forgotten, continues the same plan |
| `LookAhead.MoveSpec.LimitedSound` | klippy/toolhead.py:15-59 | the limits of a new move, before and after a speed limit, are mutually consistent |
| `LookAhead.MoveSpec.SpeedLimits` | klippy/toolhead.py:22-59 | a speed is within the limit exactly when it is within the requested speed, the limit of the kinematics and, for a kinematic move, the highest velocity |
| `LookAhead.MoveSpec.AccelLimits` | klippy/toolhead.py:19-59 | the acceleration is the smallest one given, and both changes of squared speed follow from it and from the cruise ratio |
| `LookAhead.MinimumCruise` | klippy/toolhead.py:49-51 | a move on its own cruises for at least the minimum ratio of its length |
| `LookAhead.PhaseIsConstantAcceleration` | klippy/toolhead.py:100-114 | the time given to an acceleration phase is that of constant acceleration over its distance |
| `LookAhead.CruiseDistance` | klippy/toolhead.py:100-105 | the acceleration and deceleration distances of a feasible move are non-negative and leave a non-negative cruise distance |
| `LookAhead.Move.constructor` | klippy/toolhead.py:15-51 | a new move has the limits its request asks for, at rest on both ends, and its shortest time is that at its highest speed |
| `LookAhead.Move.LimitSpeed` | klippy/toolhead.py:52-59 | lowering speed and acceleration gives the limits of the lowered request, and the shortest time of the lowered speed |
| `LookAhead.Move.LimitNextJunctionSpeed` | klippy/toolhead.py:60-61 | the cap on the next junction only falls |
| `LookAhead.Joined` | klippy/toolhead.py:66-99 | the limits joined at a junction are sound and linked to the move before |
| `LookAhead.JunctionLimits` | klippy/toolhead.py:66-99 | the start speed of two kinematic moves is the smallest of both cruise limits, the limit given for the junction, what the move before can reach and the cap; any other junction is at rest |
| `LookAhead.Move.CalcJunction` | klippy/toolhead.py:66-99 | the junction with the move before gets the joined limits; other fields stay |
| `LookAhead.Move.SetJunction` | klippy/toolhead.py:100-114 | the move runs the given speeds as a trapezoid of its length with non-negative phase times |
| `LookAhead.LookAheadQueue.Reset` | klippy/toolhead.py:124-126 | all pending moves are dropped |
| `LookAhead.LookAheadQueue.AddMove` | klippy/toolhead.py:186-193 | the move joins the queue with its junction limits, nothing planned changes, and a flush is wanted when the queued time runs out |
| `LookAhead.PlanBackward` | klippy/toolhead.py:135-169 | the backward loop finds both profiles, the assigned cruise speeds and the lazy flush point |
| `LookAhead.AssignForward` | klippy/toolhead.py:172-181 | the forward loop gives every flushed move the speeds of the plan |
| `LookAhead.Sweep` | klippy/toolhead.py:135-181 | both passes release the right number of moves, each feasible and with its planned speeds |
| `LookAhead.LookAheadQueue.Flush` | klippy/toolhead.py:135-185 | the released moves are the first of the queue, each runs the next speeds of the one plan over all moves and is feasible; a full flush empties the queue |
| `LookAhead.Apply` | klippy/toolhead.py:135-193 | one event on the queue keeps it in step with the offline planner and releases the next moves with their speeds |
| `LookAhead.NextLimit` | klippy/toolhead.py:60-76 | the move after a limit on the next junction starts no faster, whatever flushes come between |
| `LookAhead.OfflineAsked` | klippy/toolhead.py:15-99 | the moves planned are those asked for, with their limits |
| `LookAhead.Drive` | klippy/toolhead.py:135-193 | for every run the moves released are the moves asked for, in order, each a feasible trapezoid with the speeds the offline planner gives it, within the speed, acceleration and junction limits asked for; the rest is still queued; the path is continuous and starts at rest, and a full flush releases all moves and ends at rest |
| `Clock32.BeforeIsExact` | src/generic/timer_irq.c:26-30 | the comparison agrees with unbounded times if and only if these are less than 2^31 apart (2^31 when the first is the earlier), or their distance modulo 2^32 falls into the half that stands for its sign |
| `Clock32.HalfRangeMisread` | src/generic/timer_irq.c:26-30 | a time 2^31 ticks later compares as earlier |
| `Clock32.HalfRangeDual` | src/sched.c:50-64 | a time is before the sentinel exactly when it is not before the periodic timer |
| `Sched.SplicedOrdered` | src/sched.c:66-82 | inserting between a not-later and a later timer keeps the list ordered |
| `Sched.DroppedOrdered` | src/sched.c:120-143 | removing a timer keeps the list ordered and forgets its time |
| `Sched.Scheduler.constructor` | src/sched.c:45-64 | the static timers are a valid list holding only the periodic timer |
| `Sched.Scheduler.SearchStops` | src/sched.c:50-82 | every comparison of a search is exact, and it succeeds at the sentinel at the latest |
| `Sched.Scheduler.FindPlace` | src/sched.c:66-82 | the search ends between the last not-later and the first later timer |
| `Sched.Scheduler.InsertTimer` | src/sched.c:66-82 | the timer is linked in its place and the rest of the list is kept |
| `Sched.Scheduler.AddTimer` | src/sched.c:84-107 | the timer joins the map with its time, or the call reports a timer too close; during a callback the head stays |
| `Sched.Scheduler.DelTimer` | src/sched.c:120-143 | the timer leaves the map, whether scheduled or not, and `last_insert` stays valid |
| `Sched.Scheduler.BeginDispatch` | src/sched.c:145-159 | the dispatched timer is the earliest |
| `Sched.Scheduler.EndDispatch` | src/sched.c:145-179 | the timer leaves the map or moves to its new time; the sentinel follows the periodic timer; the earliest wake time is returned |
| `Sched.Scheduler.Dispatch` | src/sched.c:145-179 | a whole dispatch, whatever timers its callback adds and deletes, leaves the list holding what the same steps on a map leave, and returns the earliest time |
| `Sched.Scheduler.Requeue` | src/sched.c:34-43 | rescheduling the head moves only its time |
| `Sched.Scheduler.Reschedule` | src/sched.c:168-178 | a timer with a new time is put in its place, at the head or by a search |
| `Sched.Scheduler.Reinsert` | src/sched.c:168-176 | the search may start at the hint; the timer is put in its place and becomes the hint |
| `Sched.Scheduler.Retire` | src/sched.c:161-167 | a finished timer is taken off the list and the hint stays valid |
| `Sched.Scheduler.Reset` | src/sched.c:181-190 | only the periodic timer is left |
| `Sched.Scheduler.SetTimer` | src/sched.c:84-143 | a timer that is deleted and added again is due after its delay, whether it was scheduled or not |
| `Sched.Scheduler.CancelTimer` | src/sched.c:120-143 | a deleted timer is due no more |
| `SchedRun.ActionsWork` | src/sched.c:84-143 | the calls that set and cancel timers may be made from a callback in any order, and do to the timers what the changes say |
| `SchedRun.RunCallback` | src/sched.c:145-179 | a callback leaves the timers that its changes, and its end or new time, say, and makes no other timer due at once |
| `SchedRun.RunNext` | src/sched.c:145-179 | the timer at the head runs, at its time, and is the earliest; a placeholder runs without effect and is gone |
| `SchedRun.Advance` | src/generic/timer_irq.c:38-67 | while time passes every timer that comes due runs, and no other, however callbacks reschedule; then none is left that is due |
| `SchedRun.AskedIsAnswered` | src/sched.c:84-107 | once the clock has passed the time of a timer, the next thing that happened to it is that it ran at that time, was set again or was cancelled |
| `SchedRun.RanWasAsked` | src/sched.c:145-179 | a timer that ran was last set to that very time |
| `SchedRun.Run` | src/sched.c:66-179 | for every run of commands and passing time, with callbacks that end or reschedule and change other timers, the history is sound: each timer runs at its time as the earliest one due, in order, and is answered once the clock has passed it |
| `MovePool.Pool.constructor` | src/basecmd.c:140-179 | all nodes are free and all queues empty |
| `MovePool.Pool.Alloc` | src/basecmd.c:83-94 | a free node is taken from the head of the free list, or there is none |
| `MovePool.Pool.FreeNode` | src/basecmd.c:73-81 | a held node returns to the head of the free list |
| `MovePool.Pool.Store` | src/stepper.c:262-268 | filling in a held node changes no queue |
| `MovePool.Pool.Push` | src/basecmd.c:110-122 | the node is appended to one queue and no other list changes |
| `MovePool.Pool.IsEmpty` | src/basecmd.c:96-101 | the head pointer tells whether the queue is empty |
| `MovePool.Pool.Pop` | src/basecmd.c:124-131 | the oldest node leaves its queue with the value stored in it |
| `MovePool.Pool.Reset` | src/basecmd.c:152-167 | the free list is rebuilt over all nodes, whatever the queues hold |
| `MovePool.Pool.Shutdown` | src/basecmd.c:133-167 | the handlers in any order, from any state, leave all queues empty and every node free |
| `MovePool.Pool.Accounted` | src/basecmd.c:73-167 | between commands a node is on the free list and in no queue, or in exactly one queue and not on the free list |
| `Stepper.ReportedExact` | src/stepper.c:319-345 | the decoded position is the encoded one if and only if that is within 2^30 |
| `Stepper.ReportedTooFar` | src/stepper.c:319-345 | a position of 2^30 + 1 is encoded but reported two steps short |
| `Stepper.ReportedEncodes` | src/stepper.c:355 | the position stored by a stop encodes the reported one in direction zero |
| `Stepper.AppendMove` | src/stepper.c:271-275 | queueing a move with its change-of-direction flag extends the travel by its signed count |
| `Stepper.NominalStep` | src/stepper.c:190-192 | adding the interval and then the acceleration steps through the closed form of the step times |
| `Stepper.SchedulePrefix` | src/stepper.c:83-101 | moves queued later only extend the timetable |
| `Stepper.Stepper.constructor` | src/stepper.c:219-246 | a configured motor is at zero, at rest and valid |
| `Stepper.Stepper.TakeMove` | src/stepper.c:71-78 | the next move is read, its node returns to the free list, and no other node or queue changes |
| `Stepper.Stepper.AddSteps` | src/stepper.c:80-81 | all steps of a move enter the position at once, in the encoding of its direction |
| `Stepper.Stepper.LoadTiming` | src/stepper.c:83-103 | both handlers start a move with the same nominal register |
| `Stepper.Stepper.PlaceWake` | src/stepper.c:104-128 | pushing a wake-up back leaves the nominal register alone; too far in the past is a shutdown, exactly then |
| `Stepper.Stepper.WakeIsLatest` | src/stepper.c:104-121 | on the unbounded clock an active motor wakes at the latest of its nominal time, a pulse after the last edge and, after a change of direction, a pulse after that |
| `Stepper.Stepper.WakeApart` | src/stepper.c:104-121 | such a wake-up is at least a pulse after the last edge and after the change of direction |
| `Stepper.Stepper.TooLateIs` | src/stepper.c:104-110 | on the unbounded clock a move is too late when its first step was due more than a millisecond before |
| `Stepper.Stepper.ApartInTime` | src/stepper.c:178-206 | an event that runs no earlier than its wake-up is at least a pulse after the edge before |
| `Stepper.Stepper.LoadNext` | src/stepper.c:61-129 | the next move is loaded and its node freed, or the motor rests when there is none and no node moves; it shuts down if and only if its first step would be too far in the past |
| `Stepper.Stepper.ToggleStep` | src/stepper.c:183 | a pulse counts once, in the direction of the pin, at the nominal time |
| `Stepper.Stepper.EventEdge` | src/stepper.c:137-151 | every event is one step at its nominal time |
| `Stepper.Stepper.EventFull` | src/stepper.c:178-206 | events alternate between step and unstep, steps are logged at their nominal time, the next event is at its nominal time or later where the pins need time, at least a pulse after this edge and after a change of direction; a finished move gives way to the next, whose node is freed; it shuts down if and only if that move comes too late |
| `Stepper.Stepper.QueueStep` | src/stepper.c:257-288 | a move is accepted in the direction commanded, dropped, or a shutdown for want of a node or of steps, each exactly then; an active motor takes exactly one node off the free list into its queue, an idle one none |
| `Stepper.Stepper.SetNextStepDir` | src/stepper.c:292-301 | only the direction of the next move changes |
| `Stepper.Stepper.ResetStepClock` | src/stepper.c:304-316 | a motor at rest starts a new timetable; an active one is a shutdown |
| `Stepper.Stepper.GetPosition` | src/stepper.c:319-345 | the reported position is the net count of pulses if and only if that is in range |
| `Stepper.Stepper.Stop` | src/stepper.c:348-369 | from any interrupted state the motor rests where its pulses brought it, needs a reset, and its nodes are free |
| `Stepper.Stepper.Drain` | src/stepper.c:364-368 | every node of the queue becomes free and no other node moves |
| `Stepper.Stepper.Halt` | src/stepper.c:382-391 | the same for a motor whose queue a shutdown has cleared |
| `Stepper.Stepper.OnTime` | src/stepper.c:83-110 | the logged step times are a prefix of the timetable of the accepted moves; at rest, all of it |
| `Stepper.Stepper.Event` | src/stepper.c:137-206 | either handler: an event counts the move down or loads the next one and frees its node, and shuts down exactly when that move comes too late |
| `Stepper.Stepper.RunOut` | src/stepper.c:137-206 | left alone, the motor takes every accepted step at its place in the timetable, rests at the commanded goal and keeps no node; with the fully scheduled handler if and only if no queued move is loaded more than the allowed ticks after its first step was due |
| `Stepper.Stepper.Obey` | src/stepper.c:178-369 | one command or event keeps the motor valid, moves nodes only between the free list and its own queue, and shuts down exactly when the code says; a stopped motor does not step or take a node unless it is reset |
| `Stepper.Stepper.Drive` | src/stepper.c:178-369 | the same for every run, with the reported position, the timetable and the goal; edges of an active motor are a pulse apart, whatever commands come between; from rest to rest every node is where it was |
| `Trsync.Trsync.constructor` | src/trsync.c:70-77 | a new trigger is idle with no motor attached |
| `Trsync.Trsync.StopMotor` | src/stepper.c:348-369 | stopping one motor keeps all motors valid |
| `Trsync.Trsync.AddSignal` | src/trsync.c:86-98 | a motor is attached at the front, and an active signal is a shutdown |
| `Trsync.Trsync.PopSignal` | src/trsync.c:37-42 | the first signal is unlinked and disarmed |
| `Trsync.Trsync.DoTrigger` | src/trsync.c:26-48 | an armed trigger latches the reason and stops each attached motor once, no other motor changes; otherwise nothing changes |
| `Trsync.Trsync.Dispatch` | src/trsync.c:36-44 | each attached motor is called back once, in order, and no other motor changes |
| `Trsync.Trsync.ExpireEvent` | src/trsync.c:50-57 | the timeout stops every attached motor with the reason given at the start, unless a trigger came first; no other motor changes |
| `Trsync.Trsync.Clear` | src/trsync.c:100-115 | all motors are detached and both timers off |
| `Trsync.Trsync.StartTrigger` | src/trsync.c:117-130 | the trigger is armed with no motor and no timeout |
| `Trsync.Trsync.SetExpire` | src/trsync.c:135-147 | a timeout counts only while the trigger is armed |
| `Trsync.Trsync.TriggerCommand` | src/trsync.c:157-170 | the answer is the reason that came first, the trigger is over, and every motor still attached is stopped; no other motor changes |
| `Trsync.Trsync.Obey` | src/trsync.c:26-170 | one event keeps triggers, motors and pool valid and shuts down exactly when the code says; whatever sets the trigger off, every attached motor stops where it is |
| `Trsync.Trsync.Drive` | src/trsync.c:26-170 | for every run: a latched reason and its callbacks last until the next start; every motor stopped by a trigger before or in the run rests where the trigger found it until it is reset; no node is left held |
| `Trsync.Trsync.Home` | src/trsync.c:26-170 | after a trigger, by a hit, the timeout or the host, the motors it stopped emit no step in any run that does not reset them, and its reason stands until the next start |
| `Trsync.Trsync.ShutdownAll` | src/trsync.c:194-202 | the shutdown handlers leave every motor valid and at rest, and every node free |
| `DigitalOut.DigitalOut.constructor` | src/gpiocmds.c:116-126 | a configured output is valid and at its start value |
| `DigitalOut.Waveform` | src/gpiocmds.c:34-103 | in every cycle the output is on for its share of the cycle, from the start of the cycle on |
| `DigitalOut.DigitalOut.ShowsLevel` | src/gpiocmds.c:34-114 | between edges the pin has the level of the setting loaded last |
| `DigitalOut.DigitalOut.ToggleEvent` | src/gpiocmds.c:34-53 | the pin flips, and the next event is the end of its share of the cycle or, if that is not before it, the end of the setting |
| `DigitalOut.DigitalOut.FindEnd` | src/gpiocmds.c:70-92 | the end of a setting is its timeout or the next update, and a later update is refused, exactly then |
| `DigitalOut.DigitalOut.LimitedMeans` | src/gpiocmds.c:70-84 | the timeout limits exactly the settings that are at some time off the default level |
| `DigitalOut.DigitalOut.LoadEvent` | src/gpiocmds.c:55-114 | an update is loaded at its own time, or the output shuts down, each exactly when the code says |
| `DigitalOut.DigitalOut.Schedule` | src/gpiocmds.c:96-114 | the first event of a setting is the end of its first pulse or the load at its end, and nothing for a steady output without timeout |
| `DigitalOut.DigitalOut.SetCycleTime` | src/gpiocmds.c:131-140 | the cycle changes only while no update is pending |
| `DigitalOut.DigitalOut.QueueUpdate` | src/gpiocmds.c:144-173 | the update joins the queue, or exceeds the timeout, exactly when it is first and too late; an output that pulses goes on until the update |
| `DigitalOut.DigitalOut.UpdatePin` | src/gpiocmds.c:177-194 | the pin is set at once, with its timeout exactly when it is off its default |
| `DigitalOut.DigitalOut.ShutdownOutput` | src/gpiocmds.c:197-207 | from any state the pin is at its default and nothing is queued |
| `DigitalOut.DigitalOut.Advance` | src/gpiocmds.c:34-114 | letting time pass runs finitely many events, loads exactly the updates that are due, in order, and leaves the pin at the level of the last of them; it shuts down if and only if some setting under the timeout ends with no update to follow in time |
| `DigitalOut.DigitalOut.Obey` | src/gpiocmds.c:131-194 | a command takes effect or shuts the output down, each exactly when the code says |
| `DigitalOut.DigitalOut.IsSafe` | src/gpiocmds.c:70-95 | an active output with a timeout has its load event scheduled by the last load plus the timeout |
| `DigitalOut.DigitalOut.Drive` | src/gpiocmds.c:34-207 | for every run the pin has the level of the setting in effect of all that were asked for; the output is safe after each command, and at its default after a shutdown; a run whose updates each come at most the timeout after the one before does not shut down |
| `Crc.StepIsPolynomial` | klippy/chelper/msgblock.c:20-30 | one byte-wise step is eight steps of division by the reflected CCITT polynomial |
| `Crc.FromIsDivision` | docs/Protocol.md:173-176 | the checksum of any buffer is that of the bit-wise division |
| `Crc.Crc16` | klippy/chelper/msgblock.c:18-31 | the C loop computes the checksum of the buffer |
| `Crc.PyCrc16` | klippy/msgproto.py:29-35 | the Python loop computes the same two bytes |
| `Crc.StepsAgree` | klippy/msgproto.py:29-35 | a step of the unmasked Python form is a step of the C form |
| `Crc.FromIsInjective` | klippy/chelper/msgblock.c:18-31 | a common tail never hides a difference of checksums |
| `Crc.DetectsLocalCorruption` | klippy/chelper/msgblock.c:18-31 | buffers of any length that differ within two adjacent bytes have different checksums |
| `Crc.LastByte` | klippy/chelper/msgblock.c:20-30 | a changed last byte leaves the low half of the checksum alone exactly when it changed by 0x91, and then the high half changes by 0x85 |
| `MessageBlock.ExamineStable` | src/command.c:273-289 | a verdict on a block does not depend on the bytes after it |
| `MessageBlock.DrainSplit` | src/command.c:264-325 | draining a split stream part by part does what draining it whole does |
| `MessageBlock.ChunkingInvariant` | src/command.c:264-325 | any split of a stream gives the same events, the same leftover bytes and the same state |
| `MessageBlock.Resynchronises` | src/command.c:303-324 | from any state, arbitrary bytes and 64 sync bytes leave the next byte examined first |
| `MessageBlock.BlockAfterResync` | src/command.c:268-325 | a valid block after such bytes is examined whole |
| `MessageBlock.Answers` | src/command.c:264-325 | every byte of a stream is in an intact block, a skipped sync byte, a thrown stretch or the rest; an intact block is accepted or refused by its sequence number, and of the thrown bytes between intact blocks only the first are refused |
| `MessageBlock.ExactlyOnce` | src/command.c:291-298 | if blocks on the wire are within 16 of the expected one, those accepted are the next messages in order, once each |
| `MessageBlock.SequenceOfWindow` | src/command.c:292-297 | equal sequence nibbles within the window are the same message |
| `MessageBlock.Parser.FindBlock` | src/command.c:264-325 | the parser does what the value-level parser does, state and events |
| `MessageBlock.Check` | src/command.c:273-289 | the checks of a block in order give the verdict on its bytes |
| `MessageBlock.AddFrame` | src/command.c:196-206 | a framed message is a valid block with the given sequence and content |
| `MessageBlock.CheckPacket` | klippy/msgproto.py:243-262 | the host's check gives the micro-controller's verdict |
| `MessageBlock.DamagedBlock` | src/command.c:273-289 | a block damaged anywhere within two adjacent bytes is taken as intact if and only if the last content byte changed by 0x91 and the high checksum byte by 0x85; with its length intact it is refused otherwise |
| `MessageBlock.DamageUnseen` | src/command.c:273-289 | two blocks of six bytes that differ in two adjacent bytes and are both accepted |
| `Vlq.RoundTrip` | src/command.c:39-70 | an integer written in enough bytes is read back modulo 2^32 |
| `Vlq.SizeIsLeast` | docs/Protocol.md:235-244 | the sizes of the format are the fewest bytes from which an integer is read back exactly |
| `Vlq.ListRoundTrip` | klippy/chelper/msgblock.c:71-119 | a list written by any mix of codecs is read back modulo 2^32, consuming exactly its bytes |
| `Vlq.CBytesEncode` | src/command.c:39-55 | the C encoder writes enough bytes for every word |
| `Vlq.PyBytesEncode` | klippy/msgproto.py:42-47 | the Python encoder writes enough bytes for every integer |
| `Vlq.SignedParseExact` | klippy/msgproto.py:48-63 | the unmasked signed parser reads the C encoding exactly if and only if the value is at least -2^26 |
| `Vlq.SignLost` | klippy/msgproto.py:48-63 | the word that stands for -2^26 - 1 is read as a large positive number |
| `Vlq.EncodeInt` | src/command.c:39-55 | the C encoder appends the bytes of the value and touches nothing before them |
| `Vlq.PyEncode` | klippy/msgproto.py:42-47 | the Python encoder appends the bytes of the value |
| `Vlq.ParseInt` | src/command.c:57-70 | the C parser reads one integer modulo 2^32 |
| `Vlq.PyParse` | klippy/msgproto.py:48-60 | the Python parser reads one integer, masked when unsigned, or fails when the bytes run out |
| `Vlq.AllocAndEncode` | klippy/chelper/msgblock.c:145-164 | a list that fits is encoded whole, and one that does not gives an empty message |
| `Vlq.Decode` | klippy/chelper/msgblock.c:104-119 | decoding succeeds exactly when the payload is the given number of integers |
| `Vlq.MessageRoundTrip` | klippy/chelper/msgblock.c:104-164 | a message encoded by the host decodes to the same words |
| `ClockSync.ExtendedExact` | klippy/clocksync.py:65-70 | extending a counter finds the true time if and only if less than one wrap has passed |
| `ClockSync.UptimeExact` | src/basecmd.c:312-339 | over any run the high word is right if and only if each update is less than a wrap after the last due one |
| `ClockSync.SpacedIsTimely` | src/basecmd.c:302-339 | updates that leave room for the statistics interval meet that condition |
| `ClockSync.GapOfOneWrapLost` | src/basecmd.c:312-339 | updates less than one wrap apart can still lose a wrap |
| `ClockSync.Uptime.GetUptime` | src/basecmd.c:293-299 | the reported pair is the extended time |
| `ClockSync.Uptime.StatsUpdate` | src/basecmd.c:302-339 | an update is recorded exactly when the interval has passed, with the carry into the high word |
| `ClockSync.Keep` | src/basecmd.c:302-339 | over any run of updates the stored pair is the one remembered from their true times |
| `ClockSync.HostClock.HandleClock` | klippy/clocksync.py:65-70 | a reading extends the running clock |
| `ClockSync.HostClock.Clock32ToClock64` | klippy/clocksync.py:137-141 | a reading is converted exactly if and only if it is within 2^31, and as the C code does |
| `ClockSync.Connect` | klippy/clocksync.py:33-36 | after timely updates the host starts from the true time if and only if less than a wrap has passed since the last due update |
| `ClockSync.Track` | klippy/clocksync.py:33-70 | over any session of readings less than a wrap apart the running clock is the true time |
| `Endstop.Endstop.Home` | src/endstop.c:74-96 | homing starts with no reads, or is switched off |
| `Endstop.Endstop.Event` | src/endstop.c:26-64 | the end stop triggers exactly after an unbroken run of matching, evenly spaced reads |
| `Endstop.HomeWait` | klippy/mcu.py:348-361 | the host reports a timeout, no hit, or the clock of the hit |
| `Endstop.HomeMove` | src/endstop.c:26-64 | the reported clock is that of the first read of the contact that triggered; without a trigger every given read was made and no hit is reported |
| `Itersolve.FaithfulSnoc` | klippy/chelper/itersolve.c:107-111 | a step at a crossing extends an ordered sequence of steps |
| `Itersolve.Turned` | klippy/chelper/itersolve.c:87-95 | turning round aims at the other side of the position reached |
| `Itersolve.SecantMeetsTarget` | klippy/chelper/itersolve.c:47-52 | the secant guess is where the line through the last two guesses meets the target |
| `Itersolve.Narrow` | klippy/chelper/itersolve.c:75-98 | a guess past the target bounds the step from above, one a whole step short turns the search round, any other bounds it from below; what is bracketed is a crossing |
| `Itersolve.PickTime` | klippy/chelper/itersolve.c:46-68 | a secant guess within the bounds is taken, otherwise a bracket is halved or the reach doubled; the guess stays within the bounds, and the search ends only at the end of the range without a bracket |
| `Itersolve.SeekLimit` | klippy/chelper/itersolve.c:112-121 | the reach of the next search is one and a half times the last step, bounded, and lies within the range |
| `Itersolve.Search` | klippy/chelper/itersolve.c:33-124 | the steps are in order and in range, each at a crossing, and the commanded position keeps up with the motion; it stops short only at a crossing whose step the queue refuses, with the error of the queue, or when every guess was looked up |
| `Itersolve.GenStepsRange` | klippy/chelper/itersolve.c:25-128 | the same for the requested part of a move |

## Left out

- Itersolve.GenStepsRange: the commit of steps to the compressor, a hint without effect on the steps, and the `post_cb` hook are not modelled.
- Itersolve.Search: does not claim that the search ends, because nothing in the code bounds it over reals; it is bounded by a number of guesses, whatever that is.
- Endstop.HomeWait: the end of the move and the print time of the hit are left as clock values.
- SchedRun.Run: callbacks set timers at least one tick after the time at which they run, because otherwise time might never go on; the delay of a late dispatch and the shutdown "Rescheduled timer in the past" are not modelled.
- Stepper.Stepper.QueueStep: the shutdown "Timer too close" of the timer that an idle motor schedules is not modelled here; `Sched.Scheduler.AddTimer` states when it happens.
- Trsync.Trsync.StartTrigger: the same shutdown of its report timer is not modelled here.
- Trsync.Trsync.SetExpire: the same shutdown of its timeout is not modelled here.
- Sched.Scheduler.EndDispatch: the condition that ties the new time to the other timers is the host's promise, not checked by the code.
- DigitalOut.DigitalOut.Drive: events run at their time; the delay of a late timer is not modelled.
- DigitalOut.DigitalOut.QueueUpdate: the queue is a sequence; its nodes are covered by the model of the pool. The shutdown "Timer too close" of its timer is not modelled here.
- DigitalOut.DigitalOut.UpdatePin: the same shutdown of its timer is not modelled here.
- Endstop.Endstop.Home: the same shutdown of its timer is not modelled here.
- Stepper.Stepper.LoadNext: the busy wait before a direction change on both-edge steppers is not modelled.
- Stepper.Stepper.Drive: the spacing of edges is claimed while the motor is active and for pulses of at most 2^31 ticks; a move queued at rest starts at its nominal time, as in the code.
- Rounding, square roots and junction geometry in `calc_junction` and the kinematics.
- `trapq.c`, `stepcompress.c`, `serialqueue.c`, `trdispatch.c`, motion queuing, the extruder, and drip moves.
- `stepper_event_avr` and the drivers for GPIO, ADC, SPI, I2C, displays and sensors.
- The receive buffer of the serial interrupt, `encode_msgblock` of the host, message formats and the data dictionary.
- The regression that estimates the clock frequency in `_handle_clock`.
- The reporting task of triggers, and the query command of end stops.
- The reactor, webhooks, G-code, configuration, and scripts.
