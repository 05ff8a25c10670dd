/** The client-side lobby of the Masquerade party game: the roster of players
    received from the server, the local player's ready toggle, and the
    "everyone is ready" rule that moves the game to the mask-draw phase. */
module Lobby {
  import Decimal

  datatype Option<T> = None | Some(value: T)

  /** One roster entry. The source mutates `ready` in place; here an update
      replaces the entry in the roster sequence. */
  datatype Player = Player(id: string, name: string, role: string, ready: bool)

  /** The role every player is given on roster load. */
  const MaskMaker: string := "Mask Maker"

  /** Prefix of generated player ids. */
  const IdPrefix: string := "player"

  /** The id the component starts with as its own player. */
  const InitialPlayerId: string := "player1"

  /** The id given to the roster entry at index `i`. */
  function PlayerId(i: nat): string {
    IdPrefix + Decimal.NatToString(i)
  }

  lemma PlayerIdInjective(i: nat, j: nat)
    ensures PlayerId(i) == PlayerId(j) ==> i == j
  {
    if PlayerId(i) == PlayerId(j) {
      assert PlayerId(i)[|IdPrefix|..] == Decimal.NatToString(i);
      assert PlayerId(j)[|IdPrefix|..] == Decimal.NatToString(j);
      Decimal.NatToStringInjective(i, j);
    }
  }

  function Names(ps: seq<Player>): (ns: seq<string>)
    ensures |ns| == |ps| && forall i :: 0 <= i < |ps| ==> ns[i] == ps[i].name
  {
    seq(|ps|, i requires 0 <= i < |ps| => ps[i].name)
  }

  predicate IdsDistinct(ps: seq<Player>) {
    forall i, j :: 0 <= i < j < |ps| ==> ps[i].id != ps[j].id
  }

  /** The roster built from the names the server sends: ids by position,
      every player a Mask Maker and not yet ready. */
  function RosterFromNames(names: seq<string>): (r: seq<Player>)
    ensures |r| == |names| && Names(r) == names
    ensures forall i :: 0 <= i < |r| ==> r[i].id == PlayerId(i)
    ensures forall i :: 0 <= i < |r| ==> r[i].role == MaskMaker && !r[i].ready
  {
    seq(|names|, i requires 0 <= i < |names| => Player(PlayerId(i), names[i], MaskMaker, false))
  }

  lemma RosterIdsDistinct(names: seq<string>)
    ensures IdsDistinct(RosterFromNames(names))
  {
    var r := RosterFromNames(names);
    forall i, j | 0 <= i < j < |r| ensures r[i].id != r[j].id {
      PlayerIdInjective(i, j);
    }
  }

  /** Number of ready players (`filter(p => p.ready).length`). */
  function ReadyCount(ps: seq<Player>): (n: nat)
    ensures n <= |ps|
    ensures n == |ps| <==> forall i :: 0 <= i < |ps| ==> ps[i].ready
    ensures n == 0 <==> forall i :: 0 <= i < |ps| ==> !ps[i].ready
  {
    if ps == [] then 0 else (if ps[0].ready then 1 else 0) + ReadyCount(ps[1..])
  }

  /** The all-ready guard: a non-empty roster whose every player is ready. */
  function AllPlayersReady(ps: seq<Player>): (r: bool)
    ensures ps == [] ==> !r
    ensures r <==> |ps| > 0 && ReadyCount(ps) == |ps|
  {
    |ps| > 0 && forall i :: 0 <= i < |ps| ==> ps[i].ready
  }

  lemma FreshRosterNotReady(names: seq<string>)
    ensures ReadyCount(RosterFromNames(names)) == 0
    ensures !AllPlayersReady(RosterFromNames(names))
  {
    var r := RosterFromNames(names);
    if |r| > 0 {
      assert !r[0].ready;
    }
  }

  /** Index of the first player whose id is `id` (`Array.prototype.find`). */
  function FirstIndexOf(ps: seq<Player>, id: string): (r: Option<nat>)
    ensures r.None? <==> forall j :: 0 <= j < |ps| ==> ps[j].id != id
    ensures r.Some? ==> r.value < |ps| && ps[r.value].id == id
    ensures r.Some? ==> forall j :: 0 <= j < r.value ==> ps[j].id != id
  {
    if ps == [] then None
    else if ps[0].id == id then Some(0)
    else match FirstIndexOf(ps[1..], id)
      case None => None
      case Some(k) => Some(k + 1)
  }

  /** In a fresh roster the `i`-th id finds exactly the `i`-th player. */
  lemma RosterLookup(names: seq<string>, i: nat)
    requires i < |names|
    ensures FirstIndexOf(RosterFromNames(names), PlayerId(i)) == Some(i)
  {
    var r := RosterFromNames(names);
    var k := FirstIndexOf(r, PlayerId(i));
    assert r[i].id == PlayerId(i);
    PlayerIdInjective(k.value, i);
  }

  /** The component's own id `player1` names the second entry of a fresh
      roster; a roster of fewer than two players has no entry with that id. */
  lemma OwnPlayerLookup(names: seq<string>)
    ensures |names| >= 2 ==> FirstIndexOf(RosterFromNames(names), InitialPlayerId) == Some(1)
    ensures |names| < 2 ==> FirstIndexOf(RosterFromNames(names), InitialPlayerId).None?
  {
    var r := RosterFromNames(names);
    assert PlayerId(1) == InitialPlayerId;
    if |names| >= 2 {
      RosterLookup(names, 1);
    } else {
      forall j | 0 <= j < |names| ensures r[j].id != InitialPlayerId {
        PlayerIdInjective(j, 1);
      }
    }
  }

  /** The roster after the player with `id` (the first such) flips its flag. */
  function Toggled(ps: seq<Player>, id: string): (t: seq<Player>)
    ensures |t| == |ps|
    ensures forall j :: 0 <= j < |ps| ==>
      t[j].id == ps[j].id && t[j].name == ps[j].name && t[j].role == ps[j].role
    ensures FirstIndexOf(ps, id).None? ==> t == ps
    ensures FirstIndexOf(ps, id).Some? ==>
      var k := FirstIndexOf(ps, id).value;
      t[k].ready == !ps[k].ready && forall j :: 0 <= j < |ps| && j != k ==> t[j] == ps[j]
  {
    match FirstIndexOf(ps, id)
    case None => ps
    case Some(k) => ps[k := ps[k].(ready := !ps[k].ready)]
  }

  function Bit(b: bool): nat {
    if b then 1 else 0
  }

  lemma {:induction false} ReadyCountUpdate(ps: seq<Player>, k: nat, p: Player)
    requires k < |ps|
    ensures ReadyCount(ps[k := p]) + Bit(ps[k].ready) == ReadyCount(ps) + Bit(p.ready)
  {
    if k > 0 {
      ReadyCountUpdate(ps[1..], k - 1, p);
      assert ps[k := p][1..] == ps[1..][k - 1 := p];
    } else {
      assert ps[k := p][1..] == ps[1..];
    }
  }

  /** A toggle of an existing player moves the count by exactly one:
      up when the player becomes ready, down when it stops being ready. */
  lemma {:induction false} ToggledReadyCount(ps: seq<Player>, id: string)
    ensures match FirstIndexOf(ps, id)
      case None => ReadyCount(Toggled(ps, id)) == ReadyCount(ps)
      case Some(k) =>
        ReadyCount(Toggled(ps, id)) == if ps[k].ready then ReadyCount(ps) - 1 else ReadyCount(ps) + 1
  {
    match FirstIndexOf(ps, id)
    case None =>
    case Some(k) =>
      ReadyCountUpdate(ps, k, ps[k].(ready := !ps[k].ready));
  }

  /** Toggling twice restores the roster. */
  lemma ToggledInvolution(ps: seq<Player>, id: string)
    ensures Toggled(Toggled(ps, id), id) == ps
  {
    var t := Toggled(ps, id);
    match FirstIndexOf(ps, id)
    case None =>
    case Some(k) =>
      assert FirstIndexOf(t, id) == Some(k);
  }

  /** After a toggle of an existing player everyone is ready exactly when
      that player just became ready and every other player already was. */
  lemma ToggledAllReady(ps: seq<Player>, id: string, k: nat)
    requires FirstIndexOf(ps, id) == Some(k)
    ensures AllPlayersReady(Toggled(ps, id)) <==>
      !ps[k].ready && forall j :: 0 <= j < |ps| && j != k ==> ps[j].ready
  {
    var t := Toggled(ps, id);
    if AllPlayersReady(t) {
      assert t[k].ready;
      forall j | 0 <= j < |ps| && j != k ensures ps[j].ready {
        assert t[j] == ps[j];
      }
    }
  }

  /** The component's observable state. */
  datatype View = View(players: seq<Player>, currentPlayerId: string, currentPlayerReady: bool)

  /** The state after `toggleReady`; the flag mirror follows the toggled player. */
  function AfterToggle(v: View): (w: View)
    ensures w.players == Toggled(v.players, v.currentPlayerId)
    ensures w.currentPlayerId == v.currentPlayerId
    ensures FirstIndexOf(v.players, v.currentPlayerId).None? ==> w == v
    ensures FirstIndexOf(v.players, v.currentPlayerId).Some? ==>
      w.currentPlayerReady == w.players[FirstIndexOf(v.players, v.currentPlayerId).value].ready
  {
    match FirstIndexOf(v.players, v.currentPlayerId)
    case None => v
    case Some(k) =>
      var ps := Toggled(v.players, v.currentPlayerId);
      v.(players := ps, currentPlayerReady := ps[k].ready)
  }

  /** `currentPlayerReady` agrees with the current player's flag, if there is one. */
  predicate InSync(v: View) {
    match FirstIndexOf(v.players, v.currentPlayerId)
    case None => true
    case Some(k) => v.currentPlayerReady == v.players[k].ready
  }

  /** Every toggle leaves the mirror in agreement with the roster. */
  lemma AfterToggleInSync(v: View)
    ensures InSync(AfterToggle(v))
  {
    match FirstIndexOf(v.players, v.currentPlayerId)
    case None =>
    case Some(k) =>
      assert FirstIndexOf(AfterToggle(v).players, v.currentPlayerId) == Some(k);
  }

  /** Two toggles in a row give back the state exactly when the mirror
      agreed with the roster beforehand; the roster itself always comes back. */
  lemma ToggleTwiceRestores(v: View)
    ensures AfterToggle(AfterToggle(v)).players == v.players
    ensures AfterToggle(AfterToggle(v)) == v <==> InSync(v)
  {
    var w := AfterToggle(v);
    ToggledInvolution(v.players, v.currentPlayerId);
    AfterToggleInSync(w);
    match FirstIndexOf(v.players, v.currentPlayerId)
    case None =>
    case Some(k) =>
      assert FirstIndexOf(w.players, v.currentPlayerId) == Some(k);
  }

  /** Loading a roster resets every flag but not the mirror, so after a
      toggle and a reload the two can disagree. */
  lemma ReloadCanDesync()
    ensures var v := AfterToggle(View(RosterFromNames(["a", "b"]), InitialPlayerId, false));
      && v.currentPlayerReady
      && !InSync(v.(players := RosterFromNames(["a", "b"])))
  {
    var r := RosterFromNames(["a", "b"]);
    assert PlayerId(1) == InitialPlayerId;
    RosterLookup(["a", "b"], 1);
  }

  /** The states the component can reach: its own id stays `player1`, every
      entry carries the id of its position, and only the entry at position 1
      (the own player) can ever be ready. */
  predicate Reachable(v: View) {
    && v.currentPlayerId == InitialPlayerId
    && (forall j :: 0 <= j < |v.players| ==> v.players[j].id == PlayerId(j))
    && (forall j :: 0 <= j < |v.players| && j != 1 ==> !v.players[j].ready)
  }

  lemma InitialReachable()
    ensures Reachable(View([], InitialPlayerId, false))
  {
  }

  lemma LoadPreservesReachable(v: View, names: seq<string>)
    requires Reachable(v)
    ensures Reachable(v.(players := RosterFromNames(names)))
  {
  }

  lemma {:induction false} TogglePreservesReachable(v: View)
    requires Reachable(v)
    ensures Reachable(AfterToggle(v))
  {
    assert PlayerId(1) == InitialPlayerId;
    match FirstIndexOf(v.players, v.currentPlayerId)
    case None =>
    case Some(k) =>
      PlayerIdInjective(k, 1);
  }

  /** In every reachable state the entry at position 0 is not ready, so the
      all-ready guard never holds and mask-draw is never requested. */
  lemma ReachableNeverAllReady(v: View)
    requires Reachable(v)
    ensures !AllPlayersReady(v.players)
  {
    if |v.players| > 0 {
      assert !v.players[0].ready;
    }
  }

  class LobbyComponent {
    var players: seq<Player>
    var currentPlayerId: string
    var currentPlayerReady: bool

    function State(): View
      reads this
    {
      View(players, currentPlayerId, currentPlayerReady)
    }

    constructor ()
      ensures players == [] && currentPlayerId == InitialPlayerId && !currentPlayerReady
      ensures InSync(State()) && Reachable(State())
    {
      players := [];
      currentPlayerId := InitialPlayerId;
      currentPlayerReady := false;
    }

    /** The roster update received from the server replaces the roster. */
    method LoadRoster(names: seq<string>)
      modifies this
      ensures players == RosterFromNames(names)
      ensures currentPlayerId == old(currentPlayerId) && currentPlayerReady == old(currentPlayerReady)
      ensures old(Reachable(State())) ==> Reachable(State())
    {
      players := RosterFromNames(names);
    }

    /** Flips the current player's flag and reports whether the switch to
        the mask-draw phase is to be requested. */
    method ToggleReady() returns (requestMaskDraw: bool)
      modifies this
      ensures State() == AfterToggle(old(State()))
      ensures requestMaskDraw == AllPlayersReady(players)
      ensures old(Reachable(State())) ==> Reachable(State()) && !requestMaskDraw
    {
      var found := FirstIndexOf(players, currentPlayerId);
      if found.Some? {
        var k := found.value;
        players := players[k := players[k].(ready := !players[k].ready)];
        currentPlayerReady := players[k].ready;
      }
      requestMaskDraw := AllPlayersReady(players);
      if old(Reachable(State())) {
        TogglePreservesReachable(old(State()));
        ReachableNeverAllReady(State());
      }
    }
  }

  /** A fresh component that receives a roster and toggles, any number of
      times, never asks for the mask-draw phase. */
  method ToggleSession(names: seq<string>, toggles: nat) returns (requested: bool)
    ensures !requested
  {
    var c := new LobbyComponent();
    c.LoadRoster(names);
    requested := false;
    var i := 0;
    while i < toggles
      invariant Reachable(c.State()) && !requested
    {
      var r := c.ToggleReady();
      requested := requested || r;
      i := i + 1;
    }
  }
}
