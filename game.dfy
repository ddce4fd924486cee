/**
 * The state one process of the ring keeps (the `procesos` table,
 * `procesos_activos`, `mi_indice` and the flags its signal handlers raise),
 * the handlers as atomic transitions on that state, and the steps of the main
 * loop that consume what the handlers recorded.
 */
module Game {
  import opened Wrappers
  import opened Config
  import opened Ring
  import opened PidCodec

  /** A leader announcement (`anunciar_lider`): the leader and the indices told. */
  datatype Announcement = Announcement(leader: int, recipients: seq<int>)

  /** What the main loop does with one received token. */
  datatype TokenOutcome =
      /** The new token is sent on to the next active process. */
    | Forwarded(token: int, next: int)
      /** The new token is not negative but there is nobody to send it to. */
    | Kept(token: int)
      /** The new token is negative: this process leaves the game, tells the
          others, and announces a new leader when more than one is left. */
    | SelfEliminated(token: int, notified: seq<int>, announcement: Option<Announcement>)

  /** `generar_aleatorio`: `rand() % max_random`, with the value rand()
      returned passed in. Every decrement below the bound can occur. */
  function Decrement(r: int, maxRandom: int): (d: int)
    requires r >= 0 && maxRandom > 0
    ensures 0 <= d < maxRandom
    ensures r < maxRandom ==> d == r
  {
    r % maxRandom
  }

  /** The token restarts lines 376-398 of the main loop send, as written: the
      elimination branch and the leader branch each restart the token when
      this process is the announced leader. */
  function NoticeRestarts(eliminationNotice: bool, leader: int, flags: seq<bool>, me: int): (r: seq<int>)
    requires 0 <= me < |flags|
    ensures r == (if eliminationNotice then LeaderRestart(leader, flags, me) else []) + LeaderRestart(leader, flags, me)
    ensures |r| <= 2
  {
    var next := Successor(flags, me);
    var restart := if leader == me && next != me then [next] else [];
    (if eliminationNotice then restart else []) + restart
  }

  /** The restart a leader announcement calls for: one token, to this
      process's successor, when this process is the leader and someone else
      is still active. */
  function LeaderRestart(leader: int, flags: seq<bool>, me: int): (r: seq<int>)
    requires 0 <= me < |flags|
    ensures |r| <= 1
    ensures |r| == 1 <==> leader == me && exists k :: 0 <= k < |flags| && k != me && flags[k]
    ensures |r| == 1 ==> r[0] == Successor(flags, me) && flags[r[0]] && r[0] != me
  {
    var next := Successor(flags, me);
    if leader == me && next != me then [next] else []
  }

  /** As written, the notices restart the leader's token once per pending
      notice kind: with both pending, two tokens enter the ring. */
  lemma DoubleRestart(flags: seq<bool>, me: int)
    requires 0 <= me < |flags|
    requires exists k :: 0 <= k < |flags| && k != me && flags[k]
    ensures NoticeRestarts(true, me, flags, me) == LeaderRestart(me, flags, me) + LeaderRestart(me, flags, me)
    ensures |NoticeRestarts(true, me, flags, me)| == 2
  {
  }

  /** The smallest instance: three processes, process 1 gone, process 2 the
      leader with both notices pending, restarts process 0 twice. */
  lemma DoubleRestartExample()
    ensures NoticeRestarts(true, 2, [true, false, true], 2) == [0, 0]
  {
    var flags := [true, false, true];
    assert Scan(flags, 2, 0) == 0;
  }

  /** Process 0 opens the game without checking that its successor is another
      process: alone in the ring, it sends the first token to itself. */
  lemma LoneOpenerSendsToItself(flags: seq<bool>)
    requires |flags| == 1
    ensures Successor(flags, 0) == 0
  {
  }

  /** A duplicate elimination notice for the same index leaves the count one
      below the flags; with three processes it lets two of them pass the
      winner test. */
  lemma DuplicateNoticeTwoWinners()
    ensures var flags := [true, true, true][1 := false][1 := false];
      && CountActive(flags) == 2
      && IsWinner(3 - 1 - 1, flags[0]) && IsWinner(3 - 1 - 1, flags[2])
  {
    var all := [true, true, true];
    CountFull(all);
    CountClear(all, 1);
    CountClear(all[1 := false], 1);
  }

  class Process {
    /** num_procesos */
    const n: int
    /** mi_indice */
    const me: int
    /** token_inicial */
    const initialToken: int
    /** max_random */
    const maxRandom: int
    /** procesos[i].activo */
    const active: array<bool>
    /** procesos[i].pid, as 32-bit patterns */
    const pid: array<Word>
    /** procesos_activos */
    var live: int
    /** received_pid_count */
    var receivedPids: int
    /** token_recibido and token_valor */
    var tokenPending: bool
    var tokenValue: int
    /** proceso_eliminado and eliminado_idx */
    var eliminationPending: bool
    var eliminatedIndex: int
    /** lider_idx; -1 when no announcement is pending */
    var leaderIndex: int

    ghost predicate Valid()
    {
      && 1 <= n <= MAX_PROCESSES
      && 0 <= me < n
      && active.Length == n
      && pid.Length == n
      && active as object != pid as object
      && initialToken > 0
      && maxRandom > 0
    }

    /** The live count agrees with the flags. */
    ghost predicate Consistent()
      reads this, active
    {
      live == CountActive(active[..])
    }

    /** The set-up of lines 229-236: every entry active with an unknown PID,
        and the live count at num_procesos. */
    constructor (config: GameConfig, me: int)
      requires ValidConfig(config)
      requires 0 <= me < config.processes
      ensures Valid() && Consistent()
      ensures n == config.processes && this.me == me
      ensures initialToken == config.token && maxRandom == config.maxRandom
      ensures fresh(active) && fresh(pid)
      ensures forall i :: 0 <= i < n ==> active[i] && pid[i] == UNKNOWN_PID
      ensures live == n && receivedPids == 0
      ensures !tokenPending && tokenValue == 0
      ensures !eliminationPending && eliminatedIndex == -1 && leaderIndex == -1
    {
      var flags := new bool[config.processes];
      var pids := new Word[config.processes];
      var i := 0;
      while i < config.processes
        invariant 0 <= i <= config.processes
        invariant forall k :: 0 <= k < i ==> flags[k] && pids[k] == UNKNOWN_PID
      {
        flags[i] := true;
        pids[i] := UNKNOWN_PID;
        i := i + 1;
      }
      n := config.processes;
      this.me := me;
      initialToken := config.token;
      maxRandom := config.maxRandom;
      active := flags;
      pid := pids;
      live := config.processes;
      receivedPids := 0;
      tokenPending, tokenValue := false, 0;
      eliminationPending, eliminatedIndex := false, -1;
      leaderIndex := -1;
      new;
      CountFull(active[..]);
    }

    /** `siguiente_proceso_activo`: the scan clockwise from this process.
        `probes` lists the entries it reads, in order: the t-th is t + 1
        steps round from this process, so it reads none twice and at most n. */
    method NextActive() returns (s: int, ghost probes: seq<int>)
      requires Valid()
      ensures s == Successor(active[..], me)
      ensures probes == Walk(me, Steps(me, s, n), n)
      ensures probes[|probes| - 1] == s
      ensures forall a, b :: 0 <= a < b < |probes| ==> probes[a] != probes[b]
    {
      ghost var flags := active[..];
      ghost var d := 1;
      s := Next(me, n);
      while !active[s] && s != me
        invariant 1 <= d <= n && s == Pos(me, d, n)
        invariant Scan(flags, me, s) == Successor(flags, me)
        decreases n - d
      {
        ScanStep(flags, me, s);
        NextPos(me, d, n);
        s := Next(s, n);
        d := d + 1;
      }
      ScanStops(flags, me, s);
      PosSteps(me, d, n);
      probes := Walk(me, d, n);
      WalkDistinct(me, d, n);
    }

    /** `proceso_con_mayor_indice`: the highest active index, or -1. */
    method MaxActive() returns (m: int)
      requires Valid()
      ensures m == Highest(active[..])
    {
      m := -1;
      for i := 0 to n
        invariant m == Highest(active[..i])
      {
        assert active[..i + 1][..i] == active[..i];
        if active[i] && (m == -1 || i > m) {
          m := i;
        }
      }
      assert active[..n] == active[..];
    }

    /** `manejador_token`: record the token value carried by the signal. */
    method ReceiveToken(value: int)
      modifies this`tokenPending, this`tokenValue
      ensures tokenPending && tokenValue == value
    {
      tokenValue := value;
      tokenPending := true;
    }

    /** `manejador_lider`: record the announced leader. */
    method ReceiveLeader(leader: int)
      modifies this`leaderIndex
      ensures leaderIndex == leader
    {
      leaderIndex := leader;
    }

    /** `manejador_eliminacion`: mark the entry dead, lower the live count and
        raise the elimination notice, whether or not the entry was still active.
        The count stays in step with the flags only for a first notice. */
    method MarkEliminated(idx: int)
      requires Valid()
      requires 0 <= idx < n
      modifies this`eliminatedIndex, this`live, this`eliminationPending, active
      ensures active[..] == old(active[..])[idx := false]
      ensures live == old(live) - 1
      ensures eliminationPending && eliminatedIndex == idx
      ensures old(Consistent()) && old(active[idx]) ==> Consistent()
      ensures old(Consistent()) && !old(active[idx]) ==> live == CountActive(active[..]) - 1
    {
      eliminatedIndex := idx;
      active[idx] := false;
      live := live - 1;
      eliminationPending := true;
      CountClear(old(active[..]), idx);
    }

    /** `manejador_pid`: store the PID of the entry the payload names, and
        count it, only when the index lies in [0, num_procesos). */
    method ReceivePid(payload: Word)
      requires Valid()
      modifies this`receivedPids, pid
      ensures 0 <= IndexOf(payload) < n ==>
        pid[..] == old(pid[..])[IndexOf(payload) := PidOf(payload)] && receivedPids == old(receivedPids) + 1
      ensures !(0 <= IndexOf(payload) < n) ==>
        pid[..] == old(pid[..]) && receivedPids == old(receivedPids)
    {
      var index := IndexOf(payload);
      var p := PidOf(payload);
      if index >= 0 && index < n {
        pid[index] := p;
        receivedPids := receivedPids + 1;
      }
    }

    /** Lines 314-319: process 0 sends the initial token to its successor. */
    method OpeningMove() returns (first: Option<int>)
      requires Valid()
      ensures first == if me == 0 then Some(Successor(active[..], me)) else None
    {
      first := None;
      if me == 0 {
        var next, probes := NextActive();
        first := Some(next);
      }
    }

    /** Lines 327-372: clear the token flag and take `rand_value % max_random`
        off the received token. A negative result eliminates this process (its
        own flag, the live count, the notices and, with more than one process
        left, the announcement of the highest active index as leader);
        otherwise the token goes on to the next active process, if there is one. */
    method TokenStep(randValue: int) returns (o: TokenOutcome)
      requires Valid()
      requires tokenPending
      requires randValue >= 0
      modifies this`tokenPending, this`live, active
      ensures !tokenPending
      ensures o.token == old(tokenValue) - Decrement(randValue, maxRandom)
      ensures old(tokenValue) - maxRandom < o.token <= old(tokenValue)
      ensures o.SelfEliminated? <==> o.token < 0
      ensures o.SelfEliminated? ==>
        && active[..] == old(active[..])[me := false]
        && live == old(live) - 1
        && o.notified == Recipients(active[..], me)
        && o.announcement == (if live > 1 then Some(Announcement(Highest(active[..]), Recipients(active[..], me))) else None)
      ensures o.SelfEliminated? && o.announcement.Some? ==> o.announcement.value.leader != me
      ensures o.SelfEliminated? && old(Consistent()) && old(active[me]) && o.announcement.Some? ==>
        o.announcement.value.leader >= 0
      ensures !o.SelfEliminated? ==>
        && active[..] == old(active[..])
        && live == old(live)
        && o == (if Successor(active[..], me) == me then Kept(o.token) else Forwarded(o.token, Successor(active[..], me)))
      ensures old(Consistent()) && old(active[me]) ==> Consistent()
    {
      tokenPending := false;
      var token := tokenValue - Decrement(randValue, maxRandom);
      if token < 0 {
        active[me] := false;
        live := live - 1;
        CountClear(old(active[..]), me);
        var notified := Recipients(active[..], me);
        var announcement := None;
        if live > 1 {
          var leader := MaxActive();
          if old(Consistent()) && old(active[me]) {
            CountZero(active[..]);
          }
          announcement := Some(Announcement(leader, Recipients(active[..], me)));
        }
        o := SelfEliminated(token, notified, announcement);
      } else {
        var next, probes := NextActive();
        if next != me {
          o := Forwarded(token, next);
        } else {
          o := Kept(token);
        }
      }
    }

    /** Lines 376-398 as written: a pending elimination notice restarts the
        token when this process is the pending leader, and so does a pending
        leader announcement; both notices are then cleared. */
    method HandleNotices() returns (restarts: seq<int>)
      requires Valid()
      modifies this`eliminationPending, this`leaderIndex
      ensures !eliminationPending && leaderIndex == -1
      ensures restarts == NoticeRestarts(old(eliminationPending), old(leaderIndex), active[..], me)
    {
      restarts := [];
      if eliminationPending {
        eliminationPending := false;
        if leaderIndex == me {
          var next, probes := NextActive();
          if next != me {
            restarts := restarts + [next];
          }
        }
      }
      if leaderIndex != -1 {
        if leaderIndex == me {
          var next, probes := NextActive();
          if next != me {
            restarts := restarts + [next];
          }
        }
        leaderIndex := -1;
      }
    }

    /** Lines 376-398 restarting the token once per leader announcement. */
    method HandleNoticesOnce() returns (restarts: seq<int>)
      requires Valid()
      modifies this`eliminationPending, this`leaderIndex
      ensures !eliminationPending && leaderIndex == -1
      ensures restarts == LeaderRestart(old(leaderIndex), active[..], me)
      ensures |restarts| <= 1
    {
      restarts := [];
      eliminationPending := false;
      if leaderIndex != -1 {
        if leaderIndex == me {
          var next, probes := NextActive();
          if next != me {
            restarts := [next];
          }
        }
        leaderIndex := -1;
      }
    }
  }
}
