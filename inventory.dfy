/**
 * The encounter engine of inventory.rs: the occupant traversal of the player
 * queue, the dispatch on the pair of player kinds, the robbery decision and
 * the explorer's answer to a shake-down.
 *
 * The Rust closures passed to `exchange_with_occupants` capture the active
 * player by mutable reference. Here such a closure is a function
 * `(A, Player) -> (A, Player)` that takes the active player's current state
 * and an occupant and gives back both, so the state it threads from one
 * occupant to the next is explicit.
 */
module Inventory {

  import opened Wrappers
  import opened Board
  import opened Things
  import opened Players

  /** `exp_has_torch`: some item of the explorer is the torch. */
  function ExpHasTorch(exp: ExplorerData): (r: bool)
    ensures r <==> Torch in exp.things
  {
    Any(exp.things, (t: Thing) => t == Torch)
  }

  // ---------------------------------------------------------------------------
  // The rotate-and-classify traversal
  // ---------------------------------------------------------------------------

  /** Rust's `n as i32` on a `usize`: keep the low 32 bits, two's complement. */
  function AsI32(n: nat): (r: i32)
    ensures n <= I32_MAX ==> r as int == n
    ensures (r as int - n) % 0x1_0000_0000 == 0
  {
    var low := n % 0x1_0000_0000;
    if low <= I32_MAX then low as i32 else (low - 0x1_0000_0000) as i32
  }

  /**
   * How many pop/push cycles `while index < rotation` makes for a queue of
   * `n` members: the truncated length when it is positive, none otherwise.
   */
  function Cycles(n: nat): (k: nat)
    ensures k <= n
    ensures k == n <==> n <= I32_MAX
  {
    var rotation := AsI32(n);
    if rotation <= 0 then 0 else rotation as nat
  }

  /** From 2^31 up to 2^32 players the cast is zero or negative, so there are no rounds. */
  lemma CyclesOfOversizedQueues(n: nat)
    requires 0x8000_0000 <= n <= 0x1_0000_0000
    ensures Cycles(n) == 0
  {
  }

  /** Past 2^32 players the cast wraps around to a positive count again. */
  lemma CyclesWrapAround()
    ensures Cycles(0x1_0000_0001) == 1
  {
  }

  /** One visit: an occupant of `pos` goes through `exchange`, anyone else is left alone. */
  function Visit<A>(pos: Position, exchange: (A, Player) -> (A, Player), active: A, other: Player): (A, Player)
  {
    if IsOccupant(other, pos) then exchange(active, other) else (active, other)
  }

  /**
   * Visiting `xs` front to back: the active state after the last visit and
   * the visited members in their original order.
   */
  function Exchanged<A>(pos: Position, xs: seq<Player>, exchange: (A, Player) -> (A, Player), active: A): (r: (A, seq<Player>))
    ensures |r.1| == |xs|
  {
    if xs == [] then (active, [])
    else
      var (before, done) := Exchanged(pos, xs[..|xs| - 1], exchange, active);
      var (after, last) := Visit(pos, exchange, before, xs[|xs| - 1]);
      (after, done + [last])
  }

  /**
   * The effect of `exchange_with_occupants` on the active state and on the
   * queue: the first `Cycles(|xs|)` members are visited and moved to the back.
   */
  function ExchangeOutcome<A>(pos: Position, xs: seq<Player>, exchange: (A, Player) -> (A, Player), active: A): (A, seq<Player>)
  {
    var k := Cycles(|xs|);
    var (after, visited) := Exchanged(pos, xs[..k], exchange, active);
    (after, xs[k..] + visited)
  }

  /** `exchange_with_occupants`. */
  method ExchangeWithOccupants<A>(pos: Position, others: Players, exchange: (A, Player) -> (A, Player), active: A)
    returns (active': A)
    modifies others
    ensures (active', others.members) == ExchangeOutcome(pos, old(others.members), exchange, active)
  {
    ghost var xs := others.members;
    var rotation := AsI32(others.Len());
    ghost var k := Cycles(|xs|);
    assert k == if rotation <= 0 then 0 else rotation as int;
    var index: i32 := 0;
    active' := active;
    while index < rotation
      invariant 0 <= index as int <= k
      invariant active' == Exchanged(pos, xs[..index], exchange, active).0
      invariant others.members == xs[index..] + Exchanged(pos, xs[..index], exchange, active).1
    {
      var front := others.PopFront();
      match front {
        case Some(other) =>
          ghost var i := index as nat;
          assert i < |xs| && other == xs[i];
          ghost var done := Exchanged(pos, xs[..i], exchange, active).1;
          ghost var visit := Visit(pos, exchange, active', other);
          ExchangedStep(pos, xs, exchange, active, i);
          assert xs[i..] == [xs[i]] + xs[i + 1..];
          assert others.members == xs[i + 1..] + done;
          index := index + 1;
          if IsOccupant(other, pos) {
            var (after, exchanged) := exchange(active', other);
            active' := after;
            others.PushBack(exchanged);
            assert (after, exchanged) == visit;
          } else {
            others.PushBack(other);
          }
          assert others.members == (xs[i + 1..] + done) + [visit.1];
          assert (xs[i + 1..] + done) + [visit.1] == xs[i + 1..] + (done + [visit.1]);
        case None =>
          assert false;
      }
    }
  }

  /** Visiting one more member extends the visited prefix by that member's visit. */
  lemma ExchangedStep<A>(pos: Position, xs: seq<Player>, exchange: (A, Player) -> (A, Player), active: A, i: nat)
    requires i < |xs|
    ensures var (before, done) := Exchanged(pos, xs[..i], exchange, active);
            var (after, last) := Visit(pos, exchange, before, xs[i]);
            Exchanged(pos, xs[..i + 1], exchange, active) == (after, done + [last])
  {
    assert xs[..i + 1][..i] == xs[..i];
  }

  /** Visiting a prefix of the queue yields the same prefix of the visited queue. */
  lemma {:induction false} ExchangedPrefix<A>(pos: Position, xs: seq<Player>, exchange: (A, Player) -> (A, Player), active: A, j: nat)
    requires j <= |xs|
    ensures Exchanged(pos, xs, exchange, active).1[..j] == Exchanged(pos, xs[..j], exchange, active).1
  {
    if j < |xs| {
      var init := xs[..|xs| - 1];
      assert init[..j] == xs[..j];
      ExchangedPrefix(pos, init, exchange, active, j);
    } else {
      assert xs[..j] == xs;
    }
  }

  /**
   * Member `i` of the visited queue is what visiting `xs[i]` made of it, with
   * the active state as the visits of the members before it left it.
   */
  lemma ExchangedAt<A>(pos: Position, xs: seq<Player>, exchange: (A, Player) -> (A, Player), active: A, i: nat)
    requires i < |xs|
    ensures Exchanged(pos, xs, exchange, active).1[i]
         == Visit(pos, exchange, Exchanged(pos, xs[..i], exchange, active).0, xs[i]).1
  {
    ExchangedPrefix(pos, xs, exchange, active, i + 1);
    assert xs[..i + 1][..i] == xs[..i];
  }

  /** Members that do not occupy `pos` come out of the traversal unchanged. */
  lemma NonOccupantsUntouched<A>(pos: Position, xs: seq<Player>, exchange: (A, Player) -> (A, Player), active: A)
    ensures forall i :: 0 <= i < |xs| && !IsOccupant(xs[i], pos) ==> Exchanged(pos, xs, exchange, active).1[i] == xs[i]
  {
    forall i | 0 <= i < |xs| && !IsOccupant(xs[i], pos)
      ensures Exchanged(pos, xs, exchange, active).1[i] == xs[i]
    {
      ExchangedAt(pos, xs, exchange, active, i);
    }
  }

  /**
   * With an exchange that never changes the active state, the active state
   * survives the traversal and each occupant is replaced by its own exchange.
   */
  lemma {:induction false} StatelessExchange<A>(pos: Position, xs: seq<Player>, exchange: (A, Player) -> (A, Player), active: A)
    requires forall a, p :: exchange(a, p).0 == a
    ensures Exchanged(pos, xs, exchange, active).0 == active
    ensures forall i :: 0 <= i < |xs| ==>
              Exchanged(pos, xs, exchange, active).1[i]
              == if IsOccupant(xs[i], pos) then exchange(active, xs[i]).1 else xs[i]
  {
    if xs != [] {
      var init := xs[..|xs| - 1];
      StatelessExchange(pos, init, exchange, active);
      assert forall i :: 0 <= i < |init| ==> init[i] == xs[i];
    }
  }

  /** An exchange that returns both participants as they were leaves everything as it was. */
  lemma {:induction false} IdentityExchange<A>(pos: Position, xs: seq<Player>, exchange: (A, Player) -> (A, Player), active: A)
    requires forall a, p :: exchange(a, p) == (a, p)
    ensures Exchanged(pos, xs, exchange, active) == (active, xs)
  {
    if xs != [] {
      IdentityExchange(pos, xs[..|xs| - 1], exchange, active);
      assert xs[..|xs| - 1] + [xs[|xs| - 1]] == xs;
    }
  }

  /**
   * For any queue the `i32` count can hold, the traversal makes one cycle per
   * member, keeps the length and the order, applies the exchange to exactly
   * the occupants and leaves the others unchanged.
   */
  lemma RotationVisitsEachOnce<A>(pos: Position, xs: seq<Player>, exchange: (A, Player) -> (A, Player), active: A)
    requires |xs| <= I32_MAX
    ensures Cycles(|xs|) == |xs|
    ensures var (_, ys) := ExchangeOutcome(pos, xs, exchange, active);
            |ys| == |xs| &&
            (forall i :: 0 <= i < |xs| ==>
               ys[i] == Visit(pos, exchange, Exchanged(pos, xs[..i], exchange, active).0, xs[i]).1) &&
            (forall i :: 0 <= i < |xs| && !IsOccupant(xs[i], pos) ==> ys[i] == xs[i])
  {
    assert xs[..|xs|] == xs;
    assert xs[|xs|..] == [];
    forall i | 0 <= i < |xs|
      ensures Exchanged(pos, xs, exchange, active).1[i]
           == Visit(pos, exchange, Exchanged(pos, xs[..i], exchange, active).0, xs[i]).1
    {
      ExchangedAt(pos, xs, exchange, active, i);
    }
    NonOccupantsUntouched(pos, xs, exchange, active);
  }

  // ---------------------------------------------------------------------------
  // Interaction rules and the dispatch on kinds
  // ---------------------------------------------------------------------------

  /** `shake_down`: its body is a placeholder, so neither participant changes. */
  function ShakeDown(gnome: GnomeData, exp: ExplorerData): (GnomeData, ExplorerData)
  {
    (gnome, exp)
  }

  /** `trick_or_treat`: its body is empty, so neither participant changes. */
  function TrickOrTreat(lep: LeprechaunData, exp: ExplorerData): (LeprechaunData, ExplorerData)
  {
    (lep, exp)
  }

  /** The closure of `encounter_explorer`: an active explorer meets an occupant. */
  function ExplorerMeets(exp: ExplorerData, occupant: Player): (r: (ExplorerData, Player))
    ensures SameKind(r.1, occupant)
    ensures occupant.Explorer? ==> r == (exp, occupant)
  {
    match occupant
    case Explorer(other) => (exp, Explorer(other))
    case Gnome(gnome) =>
      var (gnome', exp') := ShakeDown(gnome, exp);
      (exp', Gnome(gnome'))
    case Leprechaun(lep) =>
      var (lep', exp') := TrickOrTreat(lep, exp);
      (exp', Leprechaun(lep'))
  }

  /** The closure of `encounter_gnome`: an active gnome meets an occupant. */
  function GnomeMeets(gnome: GnomeData, occupant: Player): (r: (GnomeData, Player))
    ensures SameKind(r.1, occupant)
    ensures occupant.Gnome? || occupant.Leprechaun? ==> r == (gnome, occupant)
  {
    match occupant
    case Explorer(exp) =>
      var (gnome', exp') := ShakeDown(gnome, exp);
      (gnome', Explorer(exp'))
    case Gnome(other) => (gnome, Gnome(other))
    case Leprechaun(lep) => (gnome, Leprechaun(lep))
  }

  /** The closure of `encounter_leprechaun`: an active leprechaun meets an occupant. */
  function LeprechaunMeets(lep: LeprechaunData, occupant: Player): (r: (LeprechaunData, Player))
    ensures SameKind(r.1, occupant)
    ensures occupant.Gnome? || occupant.Leprechaun? ==> r == (lep, occupant)
  {
    match occupant
    case Explorer(exp) =>
      var (lep', exp') := TrickOrTreat(lep, exp);
      (lep', Explorer(exp'))
    case Gnome(gnome) => (lep, Gnome(gnome))
    case Leprechaun(other) => (lep, Leprechaun(other))
  }

  /** `encounter_explorer`. */
  method EncounterExplorer(data: ExplorerData, others: Players) returns (exp: ExplorerData)
    modifies others
    ensures (exp, others.members) == ExchangeOutcome(GetExpPos(data), old(others.members), ExplorerMeets, data)
  {
    exp := ExchangeWithOccupants(GetExpPos(data), others, ExplorerMeets, data);
  }

  /** `encounter_gnome`. */
  method EncounterGnome(data: GnomeData, others: Players) returns (gnome: GnomeData)
    modifies others
    ensures (gnome, others.members) == ExchangeOutcome(GetGnomePos(data), old(others.members), GnomeMeets, data)
  {
    gnome := ExchangeWithOccupants(GetGnomePos(data), others, GnomeMeets, data);
  }

  /** `encounter_leprechaun`. */
  method EncounterLeprechaun(data: LeprechaunData, others: Players) returns (lep: LeprechaunData)
    modifies others
    ensures (lep, others.members) == ExchangeOutcome(GetLepPos(data), old(others.members), LeprechaunMeets, data)
  {
    lep := ExchangeWithOccupants(GetLepPos(data), others, LeprechaunMeets, data);
  }

  /** What `encounter_others` returns and what it leaves in the queue `xs`. */
  function Encounter(player: Player, xs: seq<Player>): (Player, seq<Player>)
  {
    match player
    case Explorer(exp) =>
      var (exp', ys) := ExchangeOutcome(GetExpPos(exp), xs, ExplorerMeets, exp);
      (Explorer(exp'), ys)
    case Gnome(gnome) =>
      var (gnome', ys) := ExchangeOutcome(GetGnomePos(gnome), xs, GnomeMeets, gnome);
      (Gnome(gnome'), ys)
    case Leprechaun(lep) =>
      var (lep', ys) := ExchangeOutcome(GetLepPos(lep), xs, LeprechaunMeets, lep);
      (Leprechaun(lep'), ys)
  }

  /** `encounter_others`: dispatch on the active player's kind. */
  method EncounterOthers(player: Player, others: Players) returns (r: Player)
    modifies others
    ensures (r, others.members) == Encounter(player, old(others.members))
    ensures SameKind(r, player)
  {
    match player {
      case Explorer(exp) =>
        var exp' := EncounterExplorer(exp, others);
        r := Explorer(exp');
      case Gnome(gnome) =>
        var gnome' := EncounterGnome(gnome, others);
        r := Gnome(gnome');
      case Leprechaun(lep) =>
        var lep' := EncounterLeprechaun(lep, others);
        r := Leprechaun(lep');
    }
  }

  /** An encounter gives back a player of the active player's kind. */
  lemma EncounterKeepsKind(player: Player, xs: seq<Player>)
    ensures SameKind(Encounter(player, xs).0, player)
    ensures Encounter(player, xs).0.Explorer? <==> player.Explorer?
    ensures Encounter(player, xs).0.Gnome? <==> player.Gnome?
    ensures Encounter(player, xs).0.Leprechaun? <==> player.Leprechaun?
  {
  }

  /**
   * The gnome/explorer pair is routed to `shake_down(gnome, explorer)` and
   * the leprechaun/explorer pair to `trick_or_treat(lep, explorer)`, whichever
   * of the two is active.
   */
  lemma DispatchIsSymmetric(exp: ExplorerData, gnome: GnomeData, lep: LeprechaunData)
    ensures var (g, e) := ShakeDown(gnome, exp);
            ExplorerMeets(exp, Gnome(gnome)) == (e, Gnome(g)) && GnomeMeets(gnome, Explorer(exp)) == (g, Explorer(e))
    ensures var (l, e) := TrickOrTreat(lep, exp);
            ExplorerMeets(exp, Leprechaun(lep)) == (e, Leprechaun(l)) && LeprechaunMeets(lep, Explorer(exp)) == (l, Explorer(e))
  {
  }

  /** With the rule bodies as they stand, every meeting leaves both participants as they were. */
  lemma MeetingsChangeNothing()
    ensures forall e, p :: ExplorerMeets(e, p) == (e, p)
    ensures forall g, p :: GnomeMeets(g, p) == (g, p)
    ensures forall l, p :: LeprechaunMeets(l, p) == (l, p)
  {
  }

  /**
   * With the rule bodies as they stand, an encounter in a queue the `i32`
   * count can hold leaves the active player, every member and the queue's
   * order unchanged.
   */
  lemma EncounterChangesNothing(player: Player, xs: seq<Player>)
    requires |xs| <= I32_MAX
    ensures Encounter(player, xs) == (player, xs)
  {
    MeetingsChangeNothing();
    assert Cycles(|xs|) == |xs|;
    assert xs[..|xs|] == xs;
    assert xs[|xs|..] + xs == xs;
    match player {
      case Explorer(exp) => IdentityExchange(GetExpPos(exp), xs, ExplorerMeets, exp);
      case Gnome(gnome) => IdentityExchange(GetGnomePos(gnome), xs, GnomeMeets, gnome);
      case Leprechaun(lep) => IdentityExchange(GetLepPos(lep), xs, LeprechaunMeets, lep);
    }
  }

  /**
   * With the rule bodies as they stand, an encounter in a queue of any length
   * leaves the active player and every member unchanged and moves the first
   * `Cycles(|xs|)` members to the back: none for 2^31 to 2^32 players, all of
   * them (so the order is kept) up to `i32::MAX` players.
   */
  lemma EncounterRotatesByCycles(player: Player, xs: seq<Player>)
    ensures var k := Cycles(|xs|);
            Encounter(player, xs) == (player, xs[k..] + xs[..k])
  {
    var k := Cycles(|xs|);
    MeetingsChangeNothing();
    match player {
      case Explorer(exp) => IdentityExchange(GetExpPos(exp), xs[..k], ExplorerMeets, exp);
      case Gnome(gnome) => IdentityExchange(GetGnomePos(gnome), xs[..k], GnomeMeets, gnome);
      case Leprechaun(lep) => IdentityExchange(GetLepPos(lep), xs[..k], LeprechaunMeets, lep);
    }
  }

  // ---------------------------------------------------------------------------
  // The robbery decision and the explorer's answer
  // ---------------------------------------------------------------------------

  /** `should_rob_exp`: the gnome holds a fake coin, or the explorer holds no gold coin. */
  function ShouldRobExp(gnome: GnomeData, exp: ExplorerData): (r: bool)
    ensures r <==> (exists i :: 0 <= i < |gnome.things| && IsFakeCoin(gnome.things[i]))
                   || (forall j :: 0 <= j < |exp.things| ==> !IsGoldCoin(exp.things[j]))
  {
    Any(gnome.things, IsFakeCoin) || !Any(exp.things, IsGoldCoin)
  }

  /** Rust's `char::is_whitespace`: the characters with the Unicode White_Space property. */
  predicate IsWhitespace(c: char) {
    ('\t' <= c <= '\r') || c == ' ' || c == '\U{0085}' || c == '\U{00A0}' || c == '\U{1680}'
    || ('\U{2000}' <= c <= '\U{200A}') || c == '\U{2028}' || c == '\U{2029}' || c == '\U{202F}'
    || c == '\U{205F}' || c == '\U{3000}'
  }

  /** The first character of `line.trim()`, if any. */
  function FirstNonWhitespace(line: string): (r: Option<char>)
    ensures r.None? <==> forall i :: 0 <= i < |line| ==> IsWhitespace(line[i])
    ensures r.Some? ==> exists i :: 0 <= i < |line| && line[i] == r.value && !IsWhitespace(line[i])
                                    && forall j :: 0 <= j < i ==> IsWhitespace(line[j])
  {
    if line == [] then None
    else if !IsWhitespace(line[0]) then Some(line[0])
    else
      var r := FirstNonWhitespace(line[1..]);
      assert forall i :: 1 <= i < |line| ==> line[i] == line[1..][i - 1];
      if r.Some? then
        var i :| 0 <= i < |line[1..]| && line[1..][i] == r.value && !IsWhitespace(line[1..][i])
                 && forall j :: 0 <= j < i ==> IsWhitespace(line[1..][j]);
        assert line[i + 1] == r.value && forall j :: 0 <= j < i + 1 ==> IsWhitespace(line[j]);
        r
      else r
  }

  /**
   * The first character of the upper-cased string `to_uppercase` makes of
   * `c`, as far as it decides between the commands: lower-case ASCII letters
   * become upper-case, and the Latin ligatures ff, fi, fl, ffi and ffl
   * (U+FB00 to U+FB04) upper-case to strings that begin with 'F'.
   */
  function UpperFirst(c: char): (u: char)
    ensures 'a' <= c <= 'z' ==> u as int == c as int - 32
    ensures u == 'E' <==> c == 'E' || c == 'e'
    ensures u == 'G' <==> c == 'G' || c == 'g'
    ensures u == 'F' <==> c == 'F' || c == 'f' || '\U{FB00}' <= c <= '\U{FB04}'
  {
    if 'a' <= c <= 'z' then (c as int - 32) as char
    else if '\U{FB00}' <= c <= '\U{FB04}' then 'F'
    else c
  }

  /** `input.trim().to_uppercase().chars().nth(0)` for one line read from the player. */
  function Command(line: string): (r: Option<char>)
    ensures r.None? <==> forall i :: 0 <= i < |line| ==> IsWhitespace(line[i])
    ensures r == Some('E') <==> FirstNonWhitespace(line) in {Some('E'), Some('e')}
    ensures r == Some('G') <==> FirstNonWhitespace(line) in {Some('G'), Some('g')}
    ensures r == Some('F') <==> (FirstNonWhitespace(line).Some? &&
              (FirstNonWhitespace(line).value in {'F', 'f'} || '\U{FB00}' <= FirstNonWhitespace(line).value <= '\U{FB04}'))
  {
    match FirstNonWhitespace(line)
    case None => None
    case Some(c) => Some(UpperFirst(c))
  }

  /** The line holds one of the three commands the shake-down prompt accepts. */
  predicate IsChoiceLine(line: string) {
    Command(line) == Some('E') || Command(line) == Some('G') || Command(line) == Some('F')
  }

  /** The outcome of `ask_player_for_shake_down`. */
  datatype ShakeDownReply =
    | Handed(items: seq<Thing>, exp: ExplorerData)  // the items returned, and the explorer afterwards
    | Panicked(message: string)                      // an `expect` failed
    | Blocked                                        // the input ended before a valid command; the prompt never returns

  /** Removing the first item matching `p`, or the `expect` failing when none does. */
  function GiveFirst(exp: ExplorerData, p: Thing -> bool, missing: string): ShakeDownReply {
    match FindFirst(exp.things, p)
    case None => Panicked(missing)
    case Some(k) => Handed([exp.things[k]], exp.(things := RemoveAt(exp.things, k)))
  }

  /**
   * What `ask_player_for_shake_down` does with the explorer `exp` and the
   * lines `input` the player would type: without a fake coin it asks nothing
   * and hands over nothing; otherwise the first line that holds a command
   * decides.
   */
  function ShakeDownReplyFor(exp: ExplorerData, input: seq<string>): ShakeDownReply {
    if !Any(exp.things, IsFakeCoin) then Handed([], exp)
    else
      match FindFirst(input, IsChoiceLine)
      case None => Blocked
      case Some(i) =>
        if Command(input[i]) == Some('E') then Handed(exp.things, exp.(things := []))
        else if Command(input[i]) == Some('G') then GiveFirst(exp, IsGoldCoin, "Gold coin isn't in exp's things!")
        else GiveFirst(exp, IsFakeCoin, "Fake coin isn't in exp's things!")
  }

  /**
   * `ask_player_for_shake_down`, reading the player's lines from `input`; a
   * line that could not be read is an empty line. The gnome is not consulted.
   */
  method AskPlayerForShakeDown(gnome: GnomeData, exp: ExplorerData, input: seq<string>) returns (r: ShakeDownReply)
    ensures r == ShakeDownReplyFor(exp, input)
  {
    var hasFakeCoin := Any(exp.things, IsFakeCoin);
    if !hasFakeCoin {
      return Handed([], exp);
    }
    var i := 0;
    while i < |input|
      invariant 0 <= i <= |input|
      invariant forall j :: 0 <= j < i ==> !IsChoiceLine(input[j])
    {
      var command := Command(input[i]);
      if command == Some('E') {
        var items := exp.things;
        return Handed(items, exp.(things := []));
      } else if command == Some('G') {
        var itemPos := FindFirst(exp.things, IsGoldCoin);
        if itemPos.None? {
          return Panicked("Gold coin isn't in exp's things!");
        }
        var item := exp.things[itemPos.value];
        return Handed([item], exp.(things := RemoveAt(exp.things, itemPos.value)));
      } else if command == Some('F') {
        var itemPos := FindFirst(exp.things, IsFakeCoin);
        if itemPos.None? {
          return Panicked("Fake coin isn't in exp's things!");
        }
        var item := exp.things[itemPos.value];
        return Handed([item], exp.(things := RemoveAt(exp.things, itemPos.value)));
      }
      i := i + 1;
    }
    return Blocked;
  }

  /** Without a fake coin the explorer hands over nothing and is unchanged, whatever is typed. */
  lemma NoFakeCoinNoTrade(exp: ExplorerData, input: seq<string>)
    requires forall i :: 0 <= i < |exp.things| ==> !IsFakeCoin(exp.things[i])
    ensures ShakeDownReplyFor(exp, input) == Handed([], exp)
  {
  }

  /** Lines without a command are skipped: the prompt asks again. */
  lemma InvalidLineSkipped(exp: ExplorerData, line: string, input: seq<string>)
    requires !IsChoiceLine(line)
    ensures ShakeDownReplyFor(exp, [line] + input) == ShakeDownReplyFor(exp, input)
  {
    var s := [line] + input;
    assert s[1..] == input;
    match FindFirst(input, IsChoiceLine)
    case None =>
    case Some(k) =>
      assert FindFirst(s, IsChoiceLine) == Some(k + 1);
      assert s[k + 1] == input[k];
  }

  /** The input runs out before any command while the explorer holds a fake coin: the prompt never returns. */
  lemma NoCommandBlocks(exp: ExplorerData, input: seq<string>)
    requires exists i :: 0 <= i < |exp.things| && IsFakeCoin(exp.things[i])
    requires forall j :: 0 <= j < |input| ==> !IsChoiceLine(input[j])
    ensures ShakeDownReplyFor(exp, input) == Blocked
  {
  }

  /**
   * Command 'E' with a fake coin in hand: the explorer's former items come
   * back in their order and the explorer is left with nothing, all else equal.
   */
  lemma GiveEverything(exp: ExplorerData, input: seq<string>, i: nat)
    requires exists k :: 0 <= k < |exp.things| && IsFakeCoin(exp.things[k])
    requires i < |input| && Command(input[i]) == Some('E')
    requires forall j :: 0 <= j < i ==> !IsChoiceLine(input[j])
    ensures var r := ShakeDownReplyFor(exp, input);
            r.Handed? && r.items == exp.things && r.exp.things == []
            && r.exp.pos == exp.pos && r.exp.data == exp.data
  {
    FirstChoiceAt(input, i);
  }

  /** The first line holding a command is the one `FindFirst` picks. */
  lemma FirstChoiceAt(input: seq<string>, i: nat)
    requires i < |input| && IsChoiceLine(input[i])
    requires forall j :: 0 <= j < i ==> !IsChoiceLine(input[j])
    ensures FindFirst(input, IsChoiceLine) == Some(i)
  {
  }

  /**
   * Giving the first item that satisfies `p`: the `expect` fails exactly when
   * the explorer holds none; otherwise that item comes back alone and the rest
   * keep their order.
   */
  lemma GiveFirstMatching(exp: ExplorerData, p: Thing -> bool, missing: string)
    ensures var r := GiveFirst(exp, p, missing);
            (r.Panicked? <==> forall i :: 0 <= i < |exp.things| ==> !p(exp.things[i]))
            && (r.Panicked? || r.Handed?)
            && (r.Panicked? ==> r.message == missing)
            && (r.Handed? ==>
                  exists k :: 0 <= k < |exp.things| && p(exp.things[k])
                    && (forall j :: 0 <= j < k ==> !p(exp.things[j]))
                    && r.items == [exp.things[k]]
                    && r.exp == exp.(things := exp.things[..k] + exp.things[k + 1..]))
  {
    match FindFirst(exp.things, p)
    case None =>
    case Some(k) =>
      var rest := RemoveAt(exp.things, k);
      assert rest == exp.things[..k] + exp.things[k + 1..];
  }

  /**
   * Command 'G' (or 'F') with a fake coin in hand: a missing gold (fake) coin
   * is a panic; otherwise the first gold (fake) coin is handed over on its own
   * and the other items stay in their order.
   */
  lemma GiveCoin(exp: ExplorerData, input: seq<string>, i: nat, c: char)
    requires exists k :: 0 <= k < |exp.things| && IsFakeCoin(exp.things[k])
    requires c == 'G' || c == 'F'
    requires i < |input| && Command(input[i]) == Some(c)
    requires forall j :: 0 <= j < i ==> !IsChoiceLine(input[j])
    ensures var p := if c == 'G' then IsGoldCoin else IsFakeCoin;
            var r := ShakeDownReplyFor(exp, input);
            (r.Panicked? <==> forall k :: 0 <= k < |exp.things| ==> !p(exp.things[k]))
            && (r.Panicked? || r.Handed?)
            && (r.Handed? ==>
                  exists k :: 0 <= k < |exp.things| && p(exp.things[k])
                    && (forall j :: 0 <= j < k ==> !p(exp.things[j]))
                    && r.items == [exp.things[k]]
                    && r.exp.things == exp.things[..k] + exp.things[k + 1..]
                    && r.exp.pos == exp.pos && r.exp.data == exp.data)
  {
    FirstChoiceAt(input, i);
    if c == 'G' {
      GiveFirstMatching(exp, IsGoldCoin, "Gold coin isn't in exp's things!");
    } else {
      GiveFirstMatching(exp, IsFakeCoin, "Fake coin isn't in exp's things!");
    }
  }

  /**
   * Nothing is lost or made up: whenever the explorer hands something over,
   * the items handed over and the items kept are together the items held.
   */
  lemma ShakeDownConservesItems(exp: ExplorerData, input: seq<string>)
    ensures var r := ShakeDownReplyFor(exp, input);
            r.Handed? ==> multiset(r.items) + multiset(r.exp.things) == multiset(exp.things)
                          && r.exp.pos == exp.pos && r.exp.data == exp.data
  {
  }
}
