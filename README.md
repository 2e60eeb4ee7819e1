# Shenzhen I/O solitaire board engine in Dafny

This project models the board engine in `solitaire.py`, the part of a
solitaire bot for the mahjong solitaire in Shenzhen I/O that holds game
positions. A position has:

- eight piles of cards;
- three temporary slots (temps), each free or holding one card;
- a goal counter for each of the suits Red, Green and Black;
- a slot for the flower card.

The engine:

- decides whether a card may be laid on another;
- finds the run of cards at the bottom of a pile that can be moved together;
- removes cards from a pile or a slot;
- collects the four dragons of a suit into a slot;
- plays a player's action on a copy of the game;
- then moves cards to their goals, and the flower to its slot, until no such
  automatic move is left.

The project has six modules:

- `Cards` (cards.dfy): the card value, the stacking rule and the movable run
  of a pile.
- `Rules` (rules.dfy): the position as a value (`Board`), the goal counters,
  card removal and the placing half of `get_next_state`. It also counts the
  cards of a position and shows that no card is made or lost.
- `Dragons` (dragons.dfy): the dragon-collection test and its effect.
- `AutoResolve` (autoresolve.dfy): the automatic moves of `_refresh`, as
  sweeps repeated until nothing moves.
- `Engine` (engine.dfy): the class `Solitaire`. Its fields `piles`, `temps`,
  `goals` and `flower` are updated in place, by loops with invariants. Each
  method is proved against the functions of the other modules.
- `Wrappers` (wrappers.dfy) holds `Option` and `Result`.

Where `_remove_cards` and `get_next_state` raise an exception, the model
returns a value instead: an `Err`, or a `Rejected` transition, with the
reason in `Illegal`. The other crashes of the source are handled as listed
under "Left out": the constructor's asserts become a precondition, and the
cases where `_refresh`, `_can_stack_dragons`, `_stackable` and `get_actions`
would fail are skipped or count as false.

## Model

| member | source | states |
|---|---|---|
| Cards.StackableIrreflexive | solitaire.py:125-131 | no card may be laid on itself |
| Cards.RunDescends | solitaire.py:125-131 | along a run of stackable cards the ranks fall by one per card and neighbouring suits differ |
| Cards.RunLength | solitaire.py:133-144 | the length of the movable run at the bottom of a pile is at most the pile's size, and is zero only for an empty pile |
| Cards.RunLengthMaximal | solitaire.py:133-144 | the last `RunLength(p)` cards form a run, and the card above that run cannot take the run's first card |
| Cards.RunLengthAtLeast | solitaire.py:133-144 | a suffix of `m` cards is a run exactly when `m` is at most the run length |
| Cards.WrapAround | solitaire.py:141-143 | the last card of a run never takes the run's first card, so reading `pile[-1]` at index 0 cannot extend the run |
| Cards.Reverse | solitaire.py:144 | `s[::-1]`: same length, element `k` is element `len - 1 - k` of the input |
| Rules.GoalCounts.Inc | solitaire.py:111 | raises the named suit's goal by one and leaves the other two as they were |
| Rules.GoalCounts.Min | solitaire.py:99 | `min(self.goals.values())`: one of the three goals, and no goal is below it |
| Rules.CanMoveToGoalBound | solitaire.py:98-99 | an automatic move to a goal raises that suit from the minimum to the minimum plus one, never lowers the minimum, and keeps every goal within one of the minimum |
| Rules.IsGoalIffPilesEmpty | solitaire.py:55-60 | `is_goal` holds exactly when no card is left in any pile; temps, goals and flower play no part |
| Rules.Initial | solitaire.py:39-46 | the start position from eight dealt piles of five cards: 40 cards in play, free temps, zero goals, no flower |
| Rules.SliceStart | solitaire.py:195-196 | where Python's `pile[-size:]` starts: an index within the pile, for any `size` |
| Rules.RemoveFromPile | solitaire.py:194-196 | taking `n` cards, with `0 < n <= len(pile)`, returns the last `n` cards and leaves the first `len - n`; other piles, temps, goals and flower are unchanged |
| Rules.RemoveRestores | solitaire.py:185-200 | putting the removed cards back where they came from gives the old piles and temps; a temp yields exactly its one card; the goals and the flower slot do not change |
| Rules.RemoveConserves | solitaire.py:185-200 | the position left plus the removed cards hold exactly the cards and the flowers of the old position |
| Rules.ApplyToGoals | solitaire.py:220-223 | a move to the goals succeeds exactly when one card moves and its rank is its suit's goal plus one; it raises that suit's goal by one and changes no pile, temp or flower slot |
| Rules.ApplyToTemps | solitaire.py:216-219 | a move to a temp succeeds exactly when one card moves to an existing free slot; the card then lies in that slot, and the piles, goals and flower slot are as after the removal |
| Rules.ApplyToPiles | solitaire.py:213-215 | a move onto pile `j` succeeds exactly when `j` exists and the new movable run of `j` is longer than the moved stack; the stack is appended to `j`, and the temps, goals and flower slot are as after the removal |
| Rules.PlaceOnPile | solitaire.py:214-215 | the run after appending is longer than the stack exactly when the target was not empty and its last card with the stack forms a run |
| Rules.OntoEmptyPileRejected | solitaire.py:213-215 | a move onto an empty pile is refused, because the new run is never longer than the stack |
| Rules.ApplyConserves | solitaire.py:202-223 | an accepted move keeps the shape of the position, the total of cards in play, on the goals and in the flower slot, and the single flower |
| Rules.NotOfferedOntoItself | solitaire.py:178-181 | a pile is never offered as the target of cards of its own run |
| Rules.PileMoveOfferedIffAccepted | solitaire.py:172-181 | for two different piles and a count the source pile holds, the moves `get_actions` offers are exactly those `get_next_state` accepts |
| Dragons.StackedDragons | solitaire.py:81-96 | each temp that held the dragon, and each free temp, ends up holding the suit's Stack marker; other temps keep their cards; each pile whose last card is the dragon loses exactly that card; other piles, goals and flower are unchanged |
| Dragons.StackedDragonsEffect | solitaire.py:81-96 | the piles lose exactly the exposed dragons, no dragon of the suit is left in a temp, and every temp is filled |
| Dragons.CollectableLeavesMarker | solitaire.py:62-96 | when `_can_stack_dragons` holds, the Stack marker ends up in a temp |
| AutoResolve.TempStepCount | solitaire.py:108-113 | visiting a temp takes one card out of play when that card can go to its goal, and otherwise changes nothing |
| AutoResolve.PileStepCount | solitaire.py:114-123 | visiting a pile takes one card out of play when its last card is the flower or can go to its goal, and otherwise changes nothing |
| AutoResolve.TempStepAutoMoved | solitaire.py:108-113 | visiting a temp only empties slots, only raises goals, keeps a filled flower slot filled, keeps lockstep and the bound of 9 on the goals, and, with at most one flower on the board, keeps the card tally and the flower count |
| AutoResolve.PileStepAutoMoved | solitaire.py:114-123 | visiting a pile only takes cards off pile ends, only raises goals, keeps a filled flower slot filled, keeps lockstep and the bound of 9 on the goals, and, with at most one flower on the board, keeps the card tally and the flower count |
| AutoResolve.PileStepMoves | solitaire.py:114-123 | when the visit moves a card, pile `i` loses exactly its exposed card; a Flower-suit card then lies in the flower slot with the goals kept, any other card raises its suit's goal by one with the flower slot kept; the temps are unchanged |
| AutoResolve.TempSweep | solitaire.py:108-113 | the visits of the first `n` temps, in order; the number of temps and piles does not change |
| AutoResolve.PileSweep | solitaire.py:114-123 | the visits of the first `n` piles, in order; the number of temps and piles does not change |
| AutoResolve.SweepAutoMoved | solitaire.py:107-123 | one pass of the loop makes only automatic moves |
| AutoResolve.SweepStillIffSettled | solitaire.py:105-123 | a pass takes no card out of play exactly when no automatic move is possible, and it then changes nothing |
| AutoResolve.Refreshed | solitaire.py:101-123 | `_refresh` as a function: repeats passes until one moves nothing; the shape of the position is kept |
| AutoResolve.RefreshedSettles | solitaire.py:101-123 | after `_refresh` no automatic move is left, and only automatic moves were made |
| AutoResolve.RefreshedLeavesSettled | solitaire.py:101-123 | `_refresh` leaves a position with no automatic move unchanged |
| AutoResolve.RefreshedIdempotent | solitaire.py:101-123 | running `_refresh` twice gives the same position as running it once |
| AutoResolve.RefreshedConserves | solitaire.py:101-123 | `_refresh` keeps the card tally and the single flower |
| AutoResolve.RefreshedKeepsGoals | solitaire.py:101-123 | `_refresh` never lowers a goal and keeps goals within one of each other and at most 9 |
| AutoResolve.RefreshLoop | solitaire.py:105-123 | the `while flag` loop, entered with a given flag, keeps the shape of the position |
| AutoResolve.RefreshLoopFromSet | solitaire.py:105-123 | entered with the flag set, the loop computes `Refreshed` |
| AutoResolve.RefreshAsWrittenLeavesMove | solitaire.py:105-106 | entered with the flag cleared, as the source does, the loop leaves a Red 1 that could go to its goal in place |
| Engine.OfferedAccepted | solitaire.py:172-181 | every move `get_actions` offers is accepted by `get_next_state` |
| Engine.NextStateInvariant | solitaire.py:202-227 | an accepted action, with its automatic moves, keeps the shape, the card tally, the single flower, goals at most 9 and never lower, and a filled flower slot, and leaves no automatic move |
| Engine.Solitaire.constructor | solitaire.py:31-46 | the new game holds `Initial(piles)`: the dealt piles, three free temps, zero goals, no flower |
| Engine.Solitaire.Copy | solitaire.py:48-53 | the copy holds the same position as the original |
| Engine.Solitaire.GetStackInPile | solitaire.py:133-144 | returns the whole movable run at the bottom of the pile, reversed, and `[]` for an empty pile |
| Engine.Solitaire.CanStackDragons | solitaire.py:62-79 | false when every temp is taken and none holds the dragon; otherwise true exactly when the dragons in temps and on pile ends number four |
| Engine.Solitaire.StackDragons | solitaire.py:81-96 | after its three loops the game holds `StackedDragons` of the old position |
| Engine.Solitaire.RemoveCards | solitaire.py:185-200 | returns the removed cards and leaves the rest of the position as `Remove` says; a refused removal changes nothing |
| Engine.Solitaire.Refresh | solitaire.py:101-123 | the flag-driven loop leaves the game holding `Refreshed` of the old position |
| Engine.Solitaire.SweepTemps | solitaire.py:108-113 | the loop over the temps leaves `TempSweep` of the old position; the flag it returns says whether a card left play |
| Engine.Solitaire.SweepPiles | solitaire.py:114-123 | the loop over the piles leaves `PileSweep` of the old position; the flag it returns says whether a card left play |
| Engine.Solitaire.PlaceCards | solitaire.py:213-223 | lays the stack on its target as `Place` says, or reports the assertion that fails |
| Engine.Solitaire.GetNextState | solitaire.py:202-227 | a refused action gives `Rejected` with the reason `Apply` gives; an accepted one gives a new game holding `Refreshed` of the placed position, and leaves the original unchanged |
| Engine.Solitaire.GetActions | solitaire.py:172-181 | returns each offered pile-to-pile move exactly once, and nothing else, ordered by source pile, then number of cards, then target pile |
| Engine.Solitaire.OffersFor | solitaire.py:179-181 | the innermost loop appends, in pile order, every target whose last card takes the deepest moved card |

## Left out

- image_input.py (screen capture and template matching) is not part of this model. It is image I/O.
- game.py, the game interface whose methods return constants, is not part of this model: there is nothing in it to prove.
- The `LOCATION` class (solitaire.py:146-147) has no body. It is left out.
- `_get_actions_by_card` (solitaire.py:165-169) uses undefined names and returns nothing. It is left out.
- `Card.__repr__` (solitaire.py:28-29) formats a card for display. It is left out.
- The asserts of the `Card` and `Action` constructors (solitaire.py:18-19, 157-158) are carried by the types rather than checked: `Suit`, the ranks `Digit` 1 to 9 with `Dragon`, `FlowerRank` and `Stack`, and `Location`.
- `Cards.Stackable`: Python raises a TypeError when the suits differ and `bottom` has no numeric rank, because it computes `bottom.number + 1`. Such a pair is not stackable here. A `top` without a numeric rank already gives False in Python.
- Engine.Solitaire.constructor: the asserts of `__init__` (solitaire.py:39-41) become its precondition: eight piles of five cards each. The assert that every element is a card is carried by the types. `Rules.Initial` has the same precondition.
- Rules.PileMoveOfferedIffAccepted: it requires two different piles. `get_next_state` also accepts moving the top part of a run back onto its own pile, for example the exposed card of a pile holding Green 5 under Red 4. `get_actions` never offers that move (`Rules.NotOfferedOntoItself`), as in the source (solitaire.py:194-196, 214-215).
- Markers: like the source, the model lets a move take a Stack marker out of its temp and put it in another free temp, so a collected set of dragons is not fixed in its slot. No pile or goal takes a marker, since a marker has no numeric rank.
- Aliasing: `__copy__` is shallow, so in the source the copy shares the original's `piles` list, `temps` list and `goals` dictionary. Changes made through those shared objects reach the original too: the pile writes, the temp writes at solitaire.py:219 and the goal writes at solitaire.py:222-223. The rebinding `self.temps = None` at solitaire.py:199 is different. It replaces only the copy's attribute, so after a move from a temp the original keeps its list, and the write at solitaire.py:219 lands only in the original's list. The model builds a fresh game and leaves the original unchanged.
- Engine.Solitaire.Copy: the source copies through `Solitaire(self.piles)`, which asserts five cards in every pile. That fails once any card has moved. The model's copy has no such requirement.
- `_remove_cards` from a temp sets the whole `self.temps` to `None` (solitaire.py:199). The model frees only that slot.
- `_remove_cards` from an empty temp would return `[None]`; the model refuses it with `EmptyTemp`. A `goals` source leaves `result` unbound; the model refuses it with `NoSuchSource`.
- Negative `src_loc` and `target_loc` index from the end in Python. The model refuses any index outside the sequence. `src_size` keeps Python's slice semantics, including sizes of zero and below.
- `_can_stack_dragons` reads `pile[-1]` of every pile, which fails on an empty pile. The model counts no dragon there.
- `_stack_dragons` assumes the collection is possible. The model defines its effect on every position and writes the marker into every free temp, as the source does.
- `_refresh`: the source starts the loop with the flag cleared, so it never runs (see Findings). Its temp branch trims `piles[i]` where the temp is meant. It would fail on a free temp, an empty pile and a flower in a temp. The model runs the intended loop, frees the temp, and skips those cases.
- `get_next_state` onto a pile: the code refuses a move onto an empty pile, because the new run is never longer than the stack. The model follows the code.
- `get_next_state` onto the goals checks only that the card is its suit's next one, not the minimum rule of the automatic moves. The model follows the code.
- `get_actions` never returns its list and reads `piles[j][-1]` on empty piles. The model returns the list and offers no move onto an empty pile.
- Engine.Solitaire.PlaceCards: on a refused move its contract says nothing about the copy's state. The source leaves that copy half-updated and drops it.
- `is_goal` is modelled on the `Board` value (`Rules.Board.IsGoal`) rather than as a method of the class. It reads only the piles.

## Findings

| source | as written | input that shows it | evidently intended | confidence | as-written member | corrected member |
|---|---|---|---|---|---|---|
| solitaire.py:105-106 | `flag = False` right before `while flag:`, so the loop body never runs and no automatic move is made | a Red 1 as the only card of the first pile, all goals at zero: it stays in the pile though it may go to its goal | start with the flag set and repeat until a pass moves nothing | high, not executed | AutoResolve.RefreshAsWrittenLeavesMove | AutoResolve.RefreshedSettles |
