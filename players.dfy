/**
 * Stand-in for the game's `players` module, which is not part of this model.
 * Each player kind owns a position, an inventory and kind-specific data that
 * the encounter engine never looks at; `Players` is the double-ended queue
 * (`VecDeque<Player>`) of all players other than the active one.
 */
module Players {

  import opened Wrappers
  import opened Board
  import opened Things

  /** Kind-specific state, opaque to the encounter engine. */
  datatype KindData = KindData(fields: seq<int>)

  datatype ExplorerData = ExplorerData(pos: Position, things: seq<Thing>, data: KindData)
  datatype GnomeData = GnomeData(pos: Position, things: seq<Thing>, data: KindData)
  datatype LeprechaunData = LeprechaunData(pos: Position, things: seq<Thing>, data: KindData)

  datatype Player =
    | Explorer(exp: ExplorerData)
    | Gnome(gnome: GnomeData)
    | Leprechaun(lep: LeprechaunData)

  function GetExpPos(exp: ExplorerData): Position { exp.pos }
  function GetGnomePos(gnome: GnomeData): Position { gnome.pos }
  function GetLepPos(lep: LeprechaunData): Position { lep.pos }

  function PosOf(p: Player): Position {
    match p
    case Explorer(e) => GetExpPos(e)
    case Gnome(g) => GetGnomePos(g)
    case Leprechaun(l) => GetLepPos(l)
  }

  /**
   * `is_occupant(player, pos)`: the player stands on `pos`. The predicate
   * lives in the `players` module, which this model does not cover;
   * equality of positions is assumed.
   */
  predicate IsOccupant(p: Player, pos: Position) {
    PosOf(p) == pos
  }

  /** True when `p` and `q` are players of the same kind. */
  predicate SameKind(p: Player, q: Player) {
    (p.Explorer? && q.Explorer?) || (p.Gnome? && q.Gnome?) || (p.Leprechaun? && q.Leprechaun?)
  }

  /** The queue of players, front first. */
  class Players {
    var members: seq<Player>

    constructor (xs: seq<Player>)
      ensures members == xs
    {
      members := xs;
    }

    function Len(): nat
      reads this
    {
      |members|
    }

    /** `VecDeque::pop_front`. */
    method PopFront() returns (r: Option<Player>)
      modifies this
      ensures old(members) == [] ==> r == None && members == []
      ensures old(members) != [] ==> r == Some(old(members)[0]) && members == old(members)[1..]
    {
      if members == [] {
        r := None;
      } else {
        r := Some(members[0]);
        members := members[1..];
      }
    }

    /** `VecDeque::push_back`. */
    method PushBack(p: Player)
      modifies this
      ensures members == old(members) + [p]
    {
      members := members + [p];
    }
  }
}
