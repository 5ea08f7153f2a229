# Encounter engine of the text adventure, in Dafny

This project models the encounter engine of the text-adventure workshop game
(`workshops/src/textadventure/src/inventory.rs`). When one player is active
on a tile, `encounter_others` meets every other player on that tile. The other
players sit in a double-ended queue (`Players`). For a queue of at most
`i32::MAX` players, `exchange_with_occupants` rotates that queue once: it pops
each member from the front and pushes it to the back. A longer queue gets only
the number of rounds that the `len() as i32` cast gives (see "Rotation count"
below). Each visited member standing on the active player's position goes
through the rule picked by the pair of player kinds: gnome and explorer meet in
`shake_down`, leprechaun and explorer in `trick_or_treat`, and every other pair
is left alone. The project also models the item kinds (`Thing`), their
tag-only predicates, `exp_has_torch`, the robbery decision `should_rob_exp`,
and the explorer's answer to a shake-down (`ask_player_for_shake_down`).

Files and modules:

- `wrappers.dfy` (`Wrappers`): `Option`.
- `board.dfy` (`Board`): stand-ins for `board::Position` and
  `players::Direction`. `Direction` sits here rather than in `Players`
  because `Thing` carries it and `Players` imports `Things`.
- `things.dfy` (`Things`): `Thing`, `i32`, the three classification
  predicates, and the slice operations the code uses (`any`, `position`,
  `Vec::remove`).
- `players.dfy` (`Players`): stand-ins for the player records. `Player` is a
  datatype with three kinds. Each kind has a position, its items and
  kind-specific data the engine never reads. The `Players` queue is a class
  whose `members` sequence is changed by `PopFront` and `PushBack`.
- `inventory.dfy` (`Inventory`): everything else.

How the Rust code is represented:

- Closures. The closures given to `exchange_with_occupants` hold the active
  player by mutable reference. Here each one is a function
  `(A, Player) -> (A, Player)`. It takes the active player's current state
  and one occupant, and returns both.
- Rotation count. `ExchangeWithOccupants` keeps the source's
  `others.len() as i32` cast. `Cycles` is the number of pop/push rounds that
  cast produces. It equals the queue length exactly when the length is at
  most `i32::MAX` (`Cycles`, `RotationVisitsEachOnce`). In every case the
  first `Cycles(len)` members are visited and moved to the back
  (`EncounterRotatesByCycles`). From 2^31 to 2^32 players that is none of
  them; a longer queue can end up rotated, for example by one at 2^32 + 1.
- Unreachable panic. The `None => panic!("missing other")` arm is proved
  unreachable: it holds only `assert false`.
- Placeholder rules. `shake_down` and `trick_or_treat` have no effect in the
  code: the first is entirely commented out and the second is empty. So with
  these rules, every encounter in a queue of at most `i32::MAX` players leaves
  the active player, every member and the queue's order unchanged
  (`EncounterChangesNothing`). In a longer queue the active player and every
  member are still unchanged, but the first `Cycles(len)` members move to the
  back (`EncounterRotatesByCycles`).
- Shake-down input. `ask_player_for_shake_down` reads the player's lines as a
  parameter `input: seq<string>`. A line that fails to read counts as an
  empty line: the source clears the buffer in that case. Lines without an
  `E`, `G` or `F` command are skipped. If the input ends before a command,
  the reply is `Blocked`: the source prompt would loop forever, because at
  end of input `read_line` keeps returning an empty line. A failed `expect`
  is the reply `Panicked` with the source's message.

`shake_down` is an empty placeholder and `ask_player_for_shake_down` has no
caller, so nothing the explorer hands over reaches the gnome. The model has
no transfer step.

## Model

| member | source | states |
|---|---|---|
| `Things.ClassifiedByTag` | workshops/src/textadventure/src/inventory.rs:24-44 | `is_food`, `is_fake_coin` and `is_gold_coin` hold exactly for `Food`, `FakeCoin` and `GoldCoin`; all three are false for every other kind |
| `Things.ClassesAreDisjoint` | workshops/src/textadventure/src/inventory.rs:24-44 | no item is in two of the three classes |
| `Things.Any` | workshops/src/textadventure/src/inventory.rs:64 | `iter().any(p)` is true iff some element satisfies `p` |
| `Things.FindFirst` | workshops/src/textadventure/src/inventory.rs:218-219 | `iter().position(p)` is `None` iff no element satisfies `p`; otherwise it gives an index whose element satisfies `p` with none before it |
| `Things.RemoveAt` | workshops/src/textadventure/src/inventory.rs:221 | `Vec::remove(k)` shortens the sequence by one, keeps the elements before `k`, shifts the later ones down, and loses exactly the element at `k` (as a multiset) |
| `Inventory.ExpHasTorch` | workshops/src/textadventure/src/inventory.rs:63-65 | true iff the torch is among the explorer's items |
| `Inventory.AsI32` | workshops/src/textadventure/src/inventory.rs:97 | `len as i32` agrees with the length modulo 2^32, and is the length itself whenever the length is at most `i32::MAX` |
| `Inventory.Cycles` | workshops/src/textadventure/src/inventory.rs:97-100 | the loop makes at most one round per member, and exactly one per member iff the length is at most `i32::MAX` |
| `Inventory.CyclesOfOversizedQueues` | workshops/src/textadventure/src/inventory.rs:97 | every queue of 2^31 to 2^32 players gets no rounds |
| `Inventory.CyclesWrapAround` | workshops/src/textadventure/src/inventory.rs:97 | a queue of 2^32 + 1 players gets one round |
| `Inventory.Exchanged` | workshops/src/textadventure/src/inventory.rs:100-112 | visiting a sequence of members gives back a sequence of the same length |
| `Inventory.ExchangeWithOccupants` | workshops/src/textadventure/src/inventory.rs:95-114 | after the loop, the active state and the queue are what visiting the first `Cycles(len)` members front to back gives, with those members moved to the back; the `None` arm is unreachable |
| `Inventory.ExchangedStep` | workshops/src/textadventure/src/inventory.rs:101-109 | one more round visits one more member and appends the result |
| `Inventory.ExchangedPrefix` | workshops/src/textadventure/src/inventory.rs:100-112 | the first `j` visited members are those that visiting only the first `j` members gives |
| `Inventory.ExchangedAt` | workshops/src/textadventure/src/inventory.rs:104-109 | visited member `i` is what the visit of member `i` makes of it, given the active state left by the members before it |
| `Inventory.NonOccupantsUntouched` | workshops/src/textadventure/src/inventory.rs:104-109 | a member not on the position comes out unchanged |
| `Inventory.StatelessExchange` | workshops/src/textadventure/src/inventory.rs:100-112 | if the exchange never changes the active state, the state survives the pass and visited member `i` is `exchange(old[i])` for an occupant and `old[i]` otherwise |
| `Inventory.IdentityExchange` | workshops/src/textadventure/src/inventory.rs:100-112 | an exchange that returns both participants unchanged leaves the active state and the members as they were |
| `Inventory.RotationVisitsEachOnce` | workshops/src/textadventure/src/inventory.rs:97-113 | within `i32` range: one round per member, the length is kept, member `i` ends at place `i` visited once in order, and non-occupants are unchanged |
| `Inventory.EncounterExplorer` | workshops/src/textadventure/src/inventory.rs:116-140 | an active explorer meets the occupants of its position through the explorer closure |
| `Inventory.EncounterGnome` | workshops/src/textadventure/src/inventory.rs:142-163 | an active gnome meets the occupants of its position through the gnome closure |
| `Inventory.EncounterLeprechaun` | workshops/src/textadventure/src/inventory.rs:165-186 | an active leprechaun meets the occupants of its position through the leprechaun closure |
| `Inventory.EncounterOthers` | workshops/src/textadventure/src/inventory.rs:77-93 | dispatches on the active player's kind; the result is a player of that kind, and the queue is what that kind's encounter leaves |
| `Inventory.EncounterKeepsKind` | workshops/src/textadventure/src/inventory.rs:77-93 | explorer stays explorer, gnome stays gnome, leprechaun stays leprechaun |
| `Inventory.DispatchIsSymmetric` | workshops/src/textadventure/src/inventory.rs:116-186 | gnome and explorer are routed to `shake_down(gnome, explorer)`, and leprechaun and explorer to `trick_or_treat(lep, explorer)`, whichever of the two is active |
| `Inventory.MeetingsChangeNothing` | workshops/src/textadventure/src/inventory.rs:248-290 | with the placeholder rule bodies, every meeting returns both participants as they were |
| `Inventory.EncounterChangesNothing` | workshops/src/textadventure/src/inventory.rs:77-290 | within `i32` range, an encounter leaves the active player, every member and the queue's order unchanged |
| `Inventory.ShouldRobExp` | workshops/src/textadventure/src/inventory.rs:188-191 | true iff the gnome holds some fake coin or the explorer holds no gold coin |
| `Inventory.FirstNonWhitespace` | workshops/src/textadventure/src/inventory.rs:209 | the first character of `trim()` is the first non-whitespace character; there is none iff the line is all whitespace |
| `Inventory.UpperFirst` | workshops/src/textadventure/src/inventory.rs:209 | after upper-casing, the first character is `E`, `G` or `F` exactly for the characters whose upper case starts with that letter |
| `Inventory.AskPlayerForShakeDown` | workshops/src/textadventure/src/inventory.rs:193-245 | the loop over input lines reaches the reply that `ShakeDownReplyFor` gives for the explorer and the input |
| `Inventory.NoFakeCoinNoTrade` | workshops/src/textadventure/src/inventory.rs:240-243 | without a fake coin, nothing is read, nothing is handed over, and the explorer is unchanged |
| `Inventory.InvalidLineSkipped` | workshops/src/textadventure/src/inventory.rs:233-238 | a line without a command changes nothing, and the prompt goes on to the next line |
| `Inventory.NoCommandBlocks` | workshops/src/textadventure/src/inventory.rs:198-239 | with a fake coin in hand and no command in the input, the prompt never returns |
| `Inventory.FirstChoiceAt` | workshops/src/textadventure/src/inventory.rs:209-234 | the command that decides is the one on the first line that has a command |
| `Inventory.GiveEverything` | workshops/src/textadventure/src/inventory.rs:212-216 | command `E`: the explorer's former items come back in order, and the explorer is left empty with its position and data unchanged |
| `Inventory.GiveFirstMatching` | workshops/src/textadventure/src/inventory.rs:217-232 | `position(p).expect(..)` followed by `remove`: panics with the message iff no item matches; otherwise it always hands over (never blocks), returning the first match alone and keeping the rest in order |
| `Inventory.GiveCoin` | workshops/src/textadventure/src/inventory.rs:217-232 | command `G` (`F`): panics iff no gold (fake) coin is held; otherwise the reply is always a hand-over (never blocked) that gives the first one alone and keeps the other items in order |
| `Inventory.ShakeDownConservesItems` | workshops/src/textadventure/src/inventory.rs:193-245 | whenever items are handed over, the items handed over plus the items kept equal the items held (as multisets), and position and data are unchanged |
| `Things.IsFood` | workshops/src/textadventure/src/inventory.rs:24-29 | true only for `Food` (its meaning is stated by `ClassifiedByTag`) |
| `Things.IsFakeCoin` | workshops/src/textadventure/src/inventory.rs:32-37 | true only for `FakeCoin` (stated by `ClassifiedByTag`) |
| `Things.IsGoldCoin` | workshops/src/textadventure/src/inventory.rs:39-44 | true only for `GoldCoin` (stated by `ClassifiedByTag`) |
| `Players.Players.PopFront` | workshops/src/textadventure/src/inventory.rs:101 | `VecDeque::pop_front`: `None` on an empty queue, otherwise the front member, with the queue losing it |
| `Players.Players.PushBack` | workshops/src/textadventure/src/inventory.rs:106-108 | `VecDeque::push_back`: the queue gains the member at its back |
| `Inventory.Visit` | workshops/src/textadventure/src/inventory.rs:104-109 | an occupant goes through the exchange and any other member is returned as it was (stated by `ExchangedAt` and `NonOccupantsUntouched`) |
| `Inventory.EncounterRotatesByCycles` | workshops/src/textadventure/src/inventory.rs:97-113 | for a queue of any length, an encounter leaves the active player and every member unchanged and moves the first `Cycles(len)` members to the back |
| `Inventory.ShakeDown` | workshops/src/textadventure/src/inventory.rs:248-286 | the placeholder body changes neither gnome nor explorer (stated by `MeetingsChangeNothing`) |
| `Inventory.TrickOrTreat` | workshops/src/textadventure/src/inventory.rs:289-290 | the empty body changes neither leprechaun nor explorer (stated by `MeetingsChangeNothing`) |
| `Inventory.ExplorerMeets` | workshops/src/textadventure/src/inventory.rs:120-136 | the explorer closure returns an occupant of its own kind; another explorer comes back with the active explorer unchanged |
| `Inventory.GnomeMeets` | workshops/src/textadventure/src/inventory.rs:146-159 | the gnome closure returns an occupant of its own kind; a gnome or a leprechaun comes back with the active gnome unchanged |
| `Inventory.LeprechaunMeets` | workshops/src/textadventure/src/inventory.rs:169-182 | the leprechaun closure returns an occupant of its own kind; a gnome or a leprechaun comes back with the active leprechaun unchanged |
| `Inventory.Command` | workshops/src/textadventure/src/inventory.rs:209 | a line has no first character iff it is all whitespace; the command is `E`, `G` or `F` exactly when its first non-whitespace character upper-cases to that letter |
| `Inventory.GiveFirst` | workshops/src/textadventure/src/inventory.rs:217-231 | `position(p).expect(..)` then `remove`: a panic with the message when nothing matches, otherwise the first match alone (stated by `GiveFirstMatching`) |
| `Inventory.ShakeDownReplyFor` | workshops/src/textadventure/src/inventory.rs:196-244 | the reply the prompt reaches: nothing without a fake coin, else decided by the first line with a command (stated by `GiveEverything`, `GiveCoin`, `NoCommandBlocks`, `InvalidLineSkipped`, `ShakeDownConservesItems`) |

## Left out

- `display_exp_things` and every prompt and `println!` in `ask_player_for_shake_down`: output only.
- Reading stdin: the player's lines are a parameter, and a read error is an empty line.
- `all_magic_words` and `all_fake_words`: stubs that return an empty vector for a `Board`, and the board module is not part of this model.
- The commented-out pick-up logic in `shake_down`: not live code.
- The `players` and `board` modules are not part of this model. `is_occupant` is assumed to be position equality, and the `get_*_pos` functions read a stored position. `Position`, `Direction` and the kind-specific data are stand-ins.
- `UpperFirst`: it models `to_uppercase` only as far as that decides between the commands `E`, `G` and `F`. Every other character is mapped to itself, except ASCII lower-case letters, which become upper case; non-ASCII letters such as `é` are not upper-cased, which does not affect the E/G/F decision.
- A closure that panics or does not return is not modelled: the exchange is a total function. The three closures of the source always return.
- Ownership moves and the `&mut` borrows are not modelled: players are values, and only the queue is a mutable object.
- `workshop/url_shortener/src/main.rs`: a web server and database glue that is not part of the encounter engine.
