/** The invaders game of invaders/game.cpp: invaders walk from the right
    edge towards column 0, a missile whose text is an invader's kill string
    destroys it, and an invader that reaches column 0 wins.

    The game is a value and every member function a transition returning
    the new value together with the callbacks it made (`on_invader_victory`,
    `on_invader_spawn`, `on_invader_kill`), in order. What the level's
    `spawn()` hands out and what `std::rand()` returns are inputs. */
module Invaders {
  import opened Wrappers

  /** What `Level::spawn` returns: the fields `tick` copies into an
      invader. */
  datatype Enemy = Enemy(killstring: string, text: string, score: int)

  /** `Game::invader`. */
  datatype Invader = Invader(
    killstring: string,
    text: string,
    score: int,
    xpos: nat,
    ypos: nat,
    identity: nat)

  /** `Game::missile`: the string the player typed. */
  datatype Missile = Missile(text: string)

  /** The level's `spawnCount()` and `spawnInterval()`. */
  datatype Level = Level(spawnCount: int, spawnInterval: nat)

  /** One callback to the game's listener. */
  datatype Event = Victory(invader: Invader) | Spawn(invader: Invader) | Kill(invader: Invader, missile: Missile)

  /** The members of `Game`; `level` is the level pointer, `None` while it
      is null. */
  datatype Game = Game(
    tick: nat,
    width: nat,
    height: nat,
    identity: nat,
    level: Option<Level>,
    invaders: seq<Invader>,
    score: int)

  /** A transition's new state and the callbacks it made. */
  datatype Step = Step(game: Game, events: seq<Event>)

  /** The constructor. It leaves `score_` uninitialised, so the initial
      score is a parameter. */
  function NewGame(width: nat, height: nat, score: int): (g: Game)
    ensures Valid(g)
    ensures g.level.None? && g.invaders == [] && g.tick == 0
  {
    Game(0, width, height, 1, None, [], score)
  }

  /** The representation invariant: the invaders have distinct identities,
      all below the counter, and rows inside the field. */
  predicate Valid(g: Game) {
    && Distinct(g.invaders)
    && (forall i :: 0 <= i < |g.invaders| ==> g.invaders[i].identity < g.identity)
    && (forall i :: 0 <= i < |g.invaders| ==> g.invaders[i].ypos < g.height)
  }

  predicate Distinct(s: seq<Invader>) {
    forall i, j :: 0 <= i < |s| && 0 <= j < |s| && i != j ==> s[i].identity != s[j].identity
  }

  // ---------------------------------------------------------------- tick

  /** The invaders that reached column 0, which `std::partition` moves to
      the back, in their original order. */
  function Reached(s: seq<Invader>): (r: seq<Invader>)
    ensures forall k :: 0 <= k < |r| ==> r[k].xpos == 0
  {
    if s == [] then []
    else (if s[0].xpos == 0 then [s[0]] else []) + Reached(s[1..])
  }

  /** One column to the left. */
  function Moved(inv: Invader): Invader
    requires inv.xpos > 0
  {
    inv.(xpos := inv.xpos - 1)
  }

  /** The invaders still on the way, each one column further, in their
      original order. */
  function Advance(s: seq<Invader>): (r: seq<Invader>)
    ensures |r| + |Reached(s)| == |s|
  {
    if s == [] then []
    else (if s[0].xpos != 0 then [Moved(s[0])] else []) + Advance(s[1..])
  }

  /** `spawnCount()` as the loop `for (i = 0; i < spawn_count; ++i)` uses
      it. */
  function SpawnCount(level: Level): nat {
    if level.spawnCount > 0 then level.spawnCount else 0
  }

  /** How many invaders this `tick` spawns. */
  function Spawns(g: Game): nat {
    match g.level
    case None => 0
    case Some(level) =>
      if level.spawnInterval != 0 && g.tick % level.spawnInterval == 0 then SpawnCount(level) else 0
  }

  /** What `tick` needs: a non-zero spawn interval (the `%`), an enemy and a
      `rand()` value for every invader it spawns, and a non-zero height when
      it spawns any (the second `%`). */
  predicate TickInputs(g: Game, enemies: seq<Enemy>, rolls: seq<nat>) {
    && (g.level.Some? ==> g.level.value.spawnInterval != 0)
    && |enemies| == Spawns(g)
    && |rolls| == Spawns(g)
    && (Spawns(g) > 0 ==> g.height > 0)
  }

  /** The spawn loop: invader `i` starts at column `width + i`, in row
      `rand() % height`, with the next identity. */
  function Born(enemies: seq<Enemy>, rolls: seq<nat>, width: nat, height: nat, identity: nat): (r: seq<Invader>)
    requires |rolls| == |enemies|
    requires |enemies| > 0 ==> height > 0
    ensures |r| == |enemies|
  {
    seq(|enemies|, i requires 0 <= i < |enemies| =>
      Invader(enemies[i].killstring, enemies[i].text, enemies[i].score, width + i, rolls[i] % height, identity + i))
  }

  function Victories(s: seq<Invader>): (r: seq<Event>)
    ensures |r| == |s|
  {
    seq(|s|, i requires 0 <= i < |s| => Victory(s[i]))
  }

  function Spawned(s: seq<Invader>): (r: seq<Event>)
    ensures |r| == |s|
  {
    seq(|s|, i requires 0 <= i < |s| => Spawn(s[i]))
  }

  /** `Game::tick`: without a level nothing happens; otherwise the
      invaders at column 0 win and leave, the others move one column, new
      invaders are spawned on every `spawnInterval`-th tick, and the tick
      count grows. */
  function Tick(g: Game, enemies: seq<Enemy>, rolls: seq<nat>): (r: Step)
    requires TickInputs(g, enemies, rolls)
    ensures g.level.None? ==> r == Step(g, [])
    ensures g.level.Some? ==> r.game.tick == g.tick + 1
    ensures r.game.identity == g.identity + Spawns(g)
    ensures g.level.Some? ==> |r.game.invaders| == |g.invaders| - |Reached(g.invaders)| + Spawns(g)
  {
    if g.level.None? then Step(g, [])
    else
      var victims := Reached(g.invaders);
      var born := Born(enemies, rolls, g.width, g.height, g.identity);
      Step(
        g.(tick := g.tick + 1, identity := g.identity + |born|, invaders := Advance(g.invaders) + born),
        Victories(victims) + Spawned(born))
  }

  /** `Reached` holds each invader at column 0 as often as the game did,
      and no other. */
  lemma {:induction false} ReachedCount(s: seq<Invader>, inv: Invader)
    ensures multiset(Reached(s))[inv] == if inv.xpos == 0 then multiset(s)[inv] else 0
    decreases |s|
  {
    if s != [] {
      ReachedCount(s[1..], inv);
      assert s == [s[0]] + s[1..];
    }
  }

  /** `Advance` holds, one column further left, each invader that was not
      at column 0, as often as the game did. */
  lemma {:induction false} AdvanceCount(s: seq<Invader>, inv: Invader)
    ensures multiset(Advance(s))[inv] == multiset(s)[inv.(xpos := inv.xpos + 1)]
    decreases |s|
  {
    if s != [] {
      AdvanceCount(s[1..], inv);
      assert s == [s[0]] + s[1..];
      if s[0].xpos != 0 {
        assert Moved(s[0]) == inv <==> s[0] == inv.(xpos := inv.xpos + 1);
      }
    }
  }

  /** The invaders of the victory callbacks. */
  function Victims(events: seq<Event>): (r: seq<Invader>)
    ensures |r| <= |events|
  {
    if events == [] then []
    else (if events[0].Victory? then [events[0].invader] else []) + Victims(events[1..])
  }

  lemma {:induction false} VictimsOfVictories(s: seq<Invader>, more: seq<Invader>)
    ensures Victims(Victories(s) + Spawned(more)) == s
    decreases |s|
  {
    if s == [] {
      assert Victories(s) + Spawned(more) == Spawned(more);
      NoVictims(more);
    } else {
      assert (Victories(s) + Spawned(more))[1..] == Victories(s[1..]) + Spawned(more);
      VictimsOfVictories(s[1..], more);
    }
  }

  lemma {:induction false} NoVictims(s: seq<Invader>)
    ensures Victims(Spawned(s)) == []
    decreases |s|
  {
    if s != [] {
      assert Spawned(s)[1..] == Spawned(s[1..]);
      NoVictims(s[1..]);
    }
  }

  /** Pruning: `tick` reports a victory once for every invader that stood
      at column 0, and for no other; every other invader is still there,
      one column further left. The order of the survivors is not part of
      the claim. */
  lemma TickPrunes(g: Game, enemies: seq<Enemy>, rolls: seq<nat>, inv: Invader)
    requires TickInputs(g, enemies, rolls)
    requires g.level.Some?
    ensures var r := Tick(g, enemies, rolls);
      && multiset(Victims(r.events))[inv] == (if inv.xpos == 0 then multiset(g.invaders)[inv] else 0)
      && multiset(r.game.invaders[..|r.game.invaders| - Spawns(g)])[inv]
         == multiset(g.invaders)[inv.(xpos := inv.xpos + 1)]
  {
    var r := Tick(g, enemies, rolls);
    var born := Born(enemies, rolls, g.width, g.height, g.identity);
    VictimsOfVictories(Reached(g.invaders), born);
    ReachedCount(g.invaders, inv);
    assert r.game.invaders[..|r.game.invaders| - Spawns(g)] == Advance(g.invaders);
    AdvanceCount(g.invaders, inv);
  }

  /** Spawning: on a tick that is a multiple of the interval `tick`
      appends `spawnCount` invaders, the `i`-th at column `width + i`, in a
      row inside the field, with the enemy's strings and score and fresh
      consecutive identities, reporting each; on other ticks it appends
      none. */
  lemma TickSpawns(g: Game, enemies: seq<Enemy>, rolls: seq<nat>)
    requires TickInputs(g, enemies, rolls)
    requires g.level.Some?
    ensures var r := Tick(g, enemies, rolls);
      var n := |r.game.invaders| - Spawns(g);
      var level := g.level.value;
      && Spawns(g) == (if g.tick % level.spawnInterval == 0 then SpawnCount(level) else 0)
      && forall i :: 0 <= i < Spawns(g) ==>
           && r.game.invaders[n + i] == Invader(enemies[i].killstring, enemies[i].text, enemies[i].score,
                                                 g.width + i, r.game.invaders[n + i].ypos, g.identity + i)
           && r.game.invaders[n + i].ypos < g.height
           && r.events[|r.events| - Spawns(g) + i] == Spawn(r.game.invaders[n + i])
  {
  }

  /** A tick keeps the invariant: survivors keep their distinct identities,
      the new ones take identities from the counter, and rows stay inside
      the field. */
  lemma TickValid(g: Game, enemies: seq<Enemy>, rolls: seq<nat>)
    requires Valid(g)
    requires TickInputs(g, enemies, rolls)
    ensures Valid(Tick(g, enemies, rolls).game)
  {
    if g.level.Some? {
      var survivors := Advance(g.invaders);
      var born := Born(enemies, rolls, g.width, g.height, g.identity);
      AdvanceKeeps(g.invaders, g.identity, g.height);
      AppendDistinct(survivors, born, g.identity);
    }
  }

  /** The identities of a list of invaders. */
  function Ids(s: seq<Invader>): set<nat> {
    set i | 0 <= i < |s| :: s[i].identity
  }

  lemma IdsCons(x: Invader, rest: seq<Invader>)
    ensures Ids([x] + rest) == {x.identity} + Ids(rest)
  {
    var s := [x] + rest;
    forall id | id in Ids(rest)
      ensures id in Ids(s)
    {
      var i :| 0 <= i < |rest| && rest[i].identity == id;
      assert s[i + 1] == rest[i];
    }
    assert s[0] == x;
  }

  lemma DistinctCons(x: Invader, rest: seq<Invader>)
    ensures Distinct([x] + rest) <==> Distinct(rest) && x.identity !in Ids(rest)
  {
    var s := [x] + rest;
    assert forall i :: 0 <= i < |rest| ==> s[i + 1] == rest[i];
    if x.identity in Ids(rest) {
      var i :| 0 <= i < |rest| && rest[i].identity == x.identity;
      assert s[0].identity == s[i + 1].identity;
    }
  }

  /** `Advance` keeps identities distinct and takes none that was not
      there. */
  lemma {:induction false} AdvanceIds(s: seq<Invader>)
    requires Distinct(s)
    ensures Distinct(Advance(s))
    ensures Ids(Advance(s)) <= Ids(s)
    decreases |s|
  {
    if s != [] {
      var rest := Advance(s[1..]);
      assert s == [s[0]] + s[1..];
      DistinctCons(s[0], s[1..]);
      IdsCons(s[0], s[1..]);
      AdvanceIds(s[1..]);
      if s[0].xpos != 0 {
        assert Advance(s) == [Moved(s[0])] + rest;
        DistinctCons(Moved(s[0]), rest);
        IdsCons(Moved(s[0]), rest);
      } else {
        assert Advance(s) == rest;
      }
    }
  }

  /** `Advance` keeps every row. */
  lemma {:induction false} AdvanceRows(s: seq<Invader>, height: nat)
    requires forall i :: 0 <= i < |s| ==> s[i].ypos < height
    ensures forall i :: 0 <= i < |Advance(s)| ==> Advance(s)[i].ypos < height
    decreases |s|
  {
    if s != [] {
      AdvanceRows(s[1..], height);
    }
  }

  /** `Advance` keeps distinct identities below the counter and rows inside
      the field. */
  lemma AdvanceKeeps(s: seq<Invader>, identity: nat, height: nat)
    requires Distinct(s)
    requires forall i :: 0 <= i < |s| ==> s[i].identity < identity && s[i].ypos < height
    ensures Distinct(Advance(s))
    ensures forall i :: 0 <= i < |Advance(s)| ==> Advance(s)[i].identity < identity && Advance(s)[i].ypos < height
  {
    AdvanceIds(s);
    AdvanceRows(s, height);
    var r := Advance(s);
    forall i | 0 <= i < |r|
      ensures r[i].identity < identity
    {
      assert r[i].identity in Ids(r);
    }
  }

  /** Survivors with identities below the counter and newcomers numbered
      from the counter on have distinct identities together. */
  lemma AppendDistinct(survivors: seq<Invader>, born: seq<Invader>, identity: nat)
    requires Distinct(survivors)
    requires forall i :: 0 <= i < |survivors| ==> survivors[i].identity < identity
    requires forall i :: 0 <= i < |born| ==> born[i].identity == identity + i
    ensures Distinct(survivors + born)
  {
  }

  // ---------------------------------------------------------------- fire

  /** The first invader whose kill string is `text`, as `std::find_if`
      finds it. */
  function FindTarget(s: seq<Invader>, text: string): (r: Option<nat>)
    ensures r.Some? ==> r.value < |s| && s[r.value].killstring == text
    ensures r.Some? ==> forall k :: 0 <= k < r.value ==> s[k].killstring != text
    ensures r.None? ==> forall k :: 0 <= k < |s| ==> s[k].killstring != text
  {
    if s == [] then None
    else if s[0].killstring == text then Some(0)
    else match FindTarget(s[1..], text)
      case None => None
      case Some(i) => Some(i + 1)
  }

  /** `Game::fire`: the first invader the missile matches is destroyed and
      its score is added; a missile that matches nothing changes nothing. */
  function Fire(g: Game, missile: Missile): (r: Step)
    ensures (forall k :: 0 <= k < |g.invaders| ==> g.invaders[k].killstring != missile.text)
            ==> r == Step(g, [])
  {
    match FindTarget(g.invaders, missile.text)
    case None => Step(g, [])
    case Some(i) =>
      var inv := g.invaders[i];
      Step(g.(score := g.score + inv.score, invaders := g.invaders[..i] + g.invaders[i + 1..]), [Kill(inv, missile)])
  }

  /** Invader `i` is the first the missile matches, and `r` is the game
      without it, its score added, with one kill reported. */
  predicate Hit(g: Game, missile: Missile, i: nat, r: Step)
    requires i < |g.invaders|
  {
    && g.invaders[i].killstring == missile.text
    && (forall k :: 0 <= k < i ==> g.invaders[k].killstring != missile.text)
    && r.game == g.(score := g.score + g.invaders[i].score, invaders := g.invaders[..i] + g.invaders[i + 1..])
    && r.events == [Kill(g.invaders[i], missile)]
  }

  /** A missile that matches some invader hits the first one it
      matches. */
  lemma FireHits(g: Game, missile: Missile)
    requires exists k :: 0 <= k < |g.invaders| && g.invaders[k].killstring == missile.text
    ensures exists i :: 0 <= i < |g.invaders| && Hit(g, missile, i, Fire(g, missile))
  {
    var i := FindTarget(g.invaders, missile.text).value;
    assert Hit(g, missile, i, Fire(g, missile));
  }

  /** A hit removes exactly the one invader. */
  lemma FireRemovesOne(g: Game, missile: Missile, i: nat)
    requires i < |g.invaders| && Hit(g, missile, i, Fire(g, missile))
    ensures multiset(Fire(g, missile).game.invaders) + multiset{g.invaders[i]} == multiset(g.invaders)
  {
    assert g.invaders == g.invaders[..i] + [g.invaders[i]] + g.invaders[i + 1..];
  }

  /** Firing keeps the invariant. */
  lemma FireValid(g: Game, missile: Missile)
    requires Valid(g)
    ensures Valid(Fire(g, missile).game)
  {
    match FindTarget(g.invaders, missile.text)
    case None =>
    case Some(i) =>
      var s := g.invaders;
      var t := s[..i] + s[i + 1..];
      assert forall k :: 0 <= k < |t| ==> t[k] == s[if k < i then k else k + 1];
  }

  // ---------------------------------------------------------------- play

  /** `Game::play`: a new level, no invaders, tick and score back to 0. The
      identity counter runs on. */
  function Play(g: Game, level: Level): (r: Game)
    ensures Valid(r)
    ensures r.invaders == [] && r.tick == 0 && r.score == 0 && r.level == Some(level)
    ensures r.identity == g.identity && r.width == g.width && r.height == g.height
  {
    g.(invaders := [], level := Some(level), tick := 0, score := 0)
  }

  // ---------------------------------------------------------------- runs

  /** One call into the game. */
  datatype Input = TickWith(enemies: seq<Enemy>, rolls: seq<nat>) | FireWith(missile: Missile) | PlayWith(level: Level)

  /** A sequence of calls, as long as each `tick` gets the inputs it needs;
      the final game and every callback made on the way. */
  function Run(g: Game, inputs: seq<Input>): (r: Option<Step>)
    decreases |inputs|
  {
    if inputs == [] then Some(Step(g, []))
    else
      var next :=
        match inputs[0]
        case TickWith(enemies, rolls) =>
          if TickInputs(g, enemies, rolls) then Some(Tick(g, enemies, rolls)) else None
        case FireWith(missile) => Some(Fire(g, missile))
        case PlayWith(level) => Some(Step(Play(g, level), []));
      match next
      case None => None
      case Some(step) =>
        match Run(step.game, inputs[1..])
        case None => None
        case Some(rest) => Some(Step(rest.game, step.events + rest.events))
  }

  /** The identities of the spawn callbacks. */
  function SpawnIds(events: seq<Event>): (r: seq<nat>)
    ensures |r| <= |events|
  {
    if events == [] then []
    else (if events[0].Spawn? then [events[0].invader.identity] else []) + SpawnIds(events[1..])
  }

  lemma {:induction false} SpawnIdsAppend(a: seq<Event>, b: seq<Event>)
    ensures SpawnIds(a + b) == SpawnIds(a) + SpawnIds(b)
    decreases |a|
  {
    if a == [] {
      assert a + b == b;
    } else {
      assert (a + b)[0] == a[0] && (a + b)[1..] == a[1..] + b;
      SpawnIdsAppend(a[1..], b);
    }
  }

  /** The identities one step hands out: consecutive, from the counter
      on. */
  lemma StepSpawnIds(g: Game, input: Input, step: Step)
    requires match input
      case TickWith(enemies, rolls) => TickInputs(g, enemies, rolls) && step == Tick(g, enemies, rolls)
      case FireWith(missile) => step == Fire(g, missile)
      case PlayWith(level) => step == Step(Play(g, level), [])
    ensures step.game.identity >= g.identity
    ensures |SpawnIds(step.events)| == step.game.identity - g.identity
    ensures forall k :: 0 <= k < |SpawnIds(step.events)| ==> SpawnIds(step.events)[k] == g.identity + k
  {
    match input
    case TickWith(enemies, rolls) =>
      if g.level.Some? {
        var born := Born(enemies, rolls, g.width, g.height, g.identity);
        SpawnIdsAppend(Victories(Reached(g.invaders)), Spawned(born));
        NoSpawnIds(Reached(g.invaders));
        BornIds(born, g.identity);
      }
    case FireWith(missile) =>
      assert SpawnIds(step.events) == [] by {
        if step.events != [] {
          assert step.events[0].Kill? && step.events[1..] == [];
        }
      }
    case PlayWith(level) =>
  }

  lemma {:induction false} NoSpawnIds(s: seq<Invader>)
    ensures SpawnIds(Victories(s)) == []
    decreases |s|
  {
    if s != [] {
      assert Victories(s)[1..] == Victories(s[1..]);
      NoSpawnIds(s[1..]);
    }
  }

  lemma {:induction false} BornIds(born: seq<Invader>, identity: nat)
    requires forall i :: 0 <= i < |born| ==> born[i].identity == identity + i
    ensures |SpawnIds(Spawned(born))| == |born|
    ensures forall k :: 0 <= k < |born| ==> SpawnIds(Spawned(born))[k] == identity + k
    decreases |born|
  {
    if born != [] {
      assert Spawned(born)[1..] == Spawned(born[1..]);
      BornIds(born[1..], identity + 1);
    }
  }

  /** Over any run, the invaders spawned are numbered consecutively from
      the counter on, so no two of them ever share an identity. */
  lemma {:induction false} RunSpawnIds(g: Game, inputs: seq<Input>)
    requires Run(g, inputs).Some?
    ensures var r := Run(g, inputs).value;
      && r.game.identity >= g.identity
      && |SpawnIds(r.events)| == r.game.identity - g.identity
      && forall k :: 0 <= k < |SpawnIds(r.events)| ==> SpawnIds(r.events)[k] == g.identity + k
    decreases |inputs|
  {
    if inputs != [] {
      var step :=
        match inputs[0]
        case TickWith(enemies, rolls) => Tick(g, enemies, rolls)
        case FireWith(missile) => Fire(g, missile)
        case PlayWith(level) => Step(Play(g, level), []);
      StepSpawnIds(g, inputs[0], step);
      RunSpawnIds(step.game, inputs[1..]);
      var rest := Run(step.game, inputs[1..]).value;
      SpawnIdsAppend(step.events, rest.events);
    }
  }

  /** Hence spawned identities are pairwise different. */
  lemma RunSpawnsDistinct(g: Game, inputs: seq<Input>, i: nat, j: nat)
    requires Run(g, inputs).Some?
    requires i < j < |SpawnIds(Run(g, inputs).value.events)|
    ensures SpawnIds(Run(g, inputs).value.events)[i] != SpawnIds(Run(g, inputs).value.events)[j]
  {
    RunSpawnIds(g, inputs);
  }
}
