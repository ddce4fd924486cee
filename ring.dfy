/**
 * The ring directory as one process sees it: the liveness flags
 * `procesos[i].activo` for i in [0, num_procesos), as a sequence of booleans.
 * Everything here is a pure function of such a snapshot; the process state
 * that owns the array (module Game) calls these to specify its methods.
 */
module Ring {

  /** Clockwise steps from `from` to `k` on a ring of `n` positions.
      Going all the way round (k == from) takes n steps. */
  function Steps(from: int, k: int, n: int): (d: int)
    requires 0 <= from < n && 0 <= k < n
    ensures 0 < d <= n
    ensures d == n <==> k == from
  {
    if from < k then k - from else k + n - from
  }

  /** The position after `k`: the ring wraps from the last position to 0. */
  function Next(k: int, n: int): (j: int)
    requires 0 <= k < n
    ensures 0 <= j < n
  {
    if k + 1 == n then 0 else k + 1
  }

  /** `Next` is the `(k + 1) % num_procesos` of the source. */
  lemma NextIsModulo(k: int, n: int)
    requires 0 <= k < n
    ensures Next(k, n) == (k + 1) % n
  {
  }

  /** The position `d` steps clockwise from `from`. */
  function Pos(from: int, d: int, n: int): (k: int)
    requires 0 <= from < n && 0 < d <= n
    ensures 0 <= k < n
  {
    if from + d < n then from + d else from + d - n
  }

  /** `Pos` and `Steps` are inverse: `d` steps round lands `d` steps away. */
  lemma PosSteps(from: int, d: int, n: int)
    requires 0 <= from < n && 0 < d <= n
    ensures Steps(from, Pos(from, d, n), n) == d
  {
  }

  /** Short of a full round, one more step is the next position. */
  lemma NextPos(from: int, d: int, n: int)
    requires 0 <= from < n && 0 < d < n
    ensures Pos(from, d, n) != from
    ensures Next(Pos(from, d, n), n) == Pos(from, d + 1, n)
  {
  }

  /** The positions a scan from `from` visits in its first `d` steps, in order. */
  function Walk(from: int, d: int, n: int): (w: seq<int>)
    requires 0 <= from < n && 0 <= d <= n
    ensures |w| == d
    ensures forall t :: 0 <= t < d ==> w[t] == Pos(from, t + 1, n)
  {
    if d == 0 then [] else Walk(from, d - 1, n) + [Pos(from, d, n)]
  }

  /** A walk of at most one round never visits a position twice. */
  lemma WalkDistinct(from: int, d: int, n: int)
    requires 0 <= from < n && 0 <= d <= n
    ensures forall a, b :: 0 <= a < b < d ==> Walk(from, d, n)[a] != Walk(from, d, n)[b]
  {
    var w := Walk(from, d, n);
    forall a, b | 0 <= a < b < d
      ensures w[a] != w[b]
    {
      PosSteps(from, a + 1, n);
      PosSteps(from, b + 1, n);
    }
  }

  /** Moving on from any position but `from` adds one step. */
  lemma NextIsOneStep(from: int, k: int, n: int)
    requires 0 <= from < n && 0 <= k < n && k != from
    ensures Steps(from, Next(k, n), n) == Steps(from, k, n) + 1
  {
  }

  /** The scan of `siguiente_proceso_activo` from position `k` on: stop at the
      first active entry, or on coming back round to `from`. */
  function Scan(flags: seq<bool>, from: int, k: int): (s: int)
    requires 0 <= from < |flags| && 0 <= k < |flags|
    ensures 0 <= s < |flags|
    ensures s == from || flags[s]
    ensures Steps(from, k, |flags|) <= Steps(from, s, |flags|)
    ensures forall j :: 0 <= j < |flags| && Steps(from, k, |flags|) <= Steps(from, j, |flags|) < Steps(from, s, |flags|) ==> !flags[j]
    decreases |flags| - Steps(from, k, |flags|)
  {
    if flags[k] || k == from then k
    else
      NextIsOneStep(from, k, |flags|);
      Scan(flags, from, Next(k, |flags|))
  }

  /** One step of the scan past an inactive entry other than `from`. */
  lemma ScanStep(flags: seq<bool>, from: int, k: int)
    requires 0 <= from < |flags| && 0 <= k < |flags|
    requires !flags[k] && k != from
    ensures Scan(flags, from, k) == Scan(flags, from, Next(k, |flags|))
  {
  }

  /** The scan stops where it stands on an active entry or on `from`. */
  lemma ScanStops(flags: seq<bool>, from: int, k: int)
    requires 0 <= from < |flags| && 0 <= k < |flags|
    requires flags[k] || k == from
    ensures Scan(flags, from, k) == k
  {
  }

  /** The next active entry clockwise from `from`, or `from` itself when no
      other entry is active. */
  function Successor(flags: seq<bool>, from: int): (s: int)
    requires 0 <= from < |flags|
    ensures 0 <= s < |flags|
    ensures s == from <==> forall j :: 0 <= j < |flags| && j != from ==> !flags[j]
    ensures s != from ==> flags[s]
    ensures forall j :: 0 <= j < |flags| && Steps(from, j, |flags|) < Steps(from, s, |flags|) ==> !flags[j]
  {
    Scan(flags, from, Next(from, |flags|))
  }

  /** Number of active entries: what `procesos_activos` is meant to hold. */
  function CountActive(flags: seq<bool>): (c: nat)
    ensures c <= |flags|
  {
    if |flags| == 0 then 0
    else CountActive(flags[..|flags| - 1]) + (if flags[|flags| - 1] then 1 else 0)
  }

  /** Clearing one flag lowers the count by one exactly when that entry was active. */
  lemma {:induction false} CountClear(flags: seq<bool>, i: int)
    requires 0 <= i < |flags|
    ensures CountActive(flags[i := false]) == CountActive(flags) - (if flags[i] then 1 else 0)
  {
    var last := |flags| - 1;
    var cleared := flags[i := false];
    if i < last {
      assert cleared[..last] == flags[..last][i := false];
      CountClear(flags[..last], i);
    } else {
      assert cleared[..last] == flags[..last];
    }
  }

  /** The count is the length exactly when every entry is active. */
  lemma {:induction false} CountFull(flags: seq<bool>)
    ensures CountActive(flags) == |flags| <==> forall k :: 0 <= k < |flags| ==> flags[k]
  {
    if |flags| > 0 {
      var last := |flags| - 1;
      CountFull(flags[..last]);
      assert forall k :: 0 <= k < last ==> flags[..last][k] == flags[k];
    }
  }

  /** The count is zero exactly when no entry is active. */
  lemma {:induction false} CountZero(flags: seq<bool>)
    ensures CountActive(flags) == 0 <==> forall k :: 0 <= k < |flags| ==> !flags[k]
  {
    if |flags| > 0 {
      var last := |flags| - 1;
      CountZero(flags[..last]);
      assert forall k :: 0 <= k < last ==> flags[..last][k] == flags[k];
    }
  }

  /** Two distinct active entries make a count of at least two. */
  lemma {:induction false} CountTwo(flags: seq<bool>, i: int, j: int)
    requires 0 <= i < j < |flags| && flags[i] && flags[j]
    ensures CountActive(flags) >= 2
  {
    var last := |flags| - 1;
    if j < last {
      CountTwo(flags[..last], i, j);
    } else {
      assert flags[..last][i];
      CountZero(flags[..last]);
    }
  }

  /** The leader rule of `proceso_con_mayor_indice`: the highest active index,
      or -1 when no entry is active. */
  function Highest(flags: seq<bool>): (m: int)
    ensures -1 <= m < |flags|
    ensures m == -1 <==> forall k :: 0 <= k < |flags| ==> !flags[k]
    ensures m != -1 ==> flags[m] && forall k :: 0 <= k < |flags| && flags[k] ==> k <= m
  {
    if |flags| == 0 then -1
    else if flags[|flags| - 1] then |flags| - 1
    else
      assert forall k :: 0 <= k < |flags| - 1 ==> flags[..|flags| - 1][k] == flags[k];
      Highest(flags[..|flags| - 1])
  }

  /** The indices `notificar_eliminacion` and `anunciar_lider` signal, in the
      order their loops do: every active entry other than `self`. */
  function Recipients(flags: seq<bool>, self: int): (r: seq<int>)
    ensures forall k :: k in r <==> 0 <= k < |flags| && flags[k] && k != self
    ensures forall a :: 0 <= a < |r| ==> 0 <= r[a] < |flags|
    ensures forall a, b :: 0 <= a < b < |r| ==> r[a] < r[b]
  {
    if |flags| == 0 then []
    else
      var last := |flags| - 1;
      assert forall k :: 0 <= k < last ==> flags[..last][k] == flags[k];
      var earlier := Recipients(flags[..last], self);
      earlier + (if flags[last] && last != self then [last] else [])
  }

  /** One signal per active entry, less one when the sender itself is active. */
  lemma {:induction false} RecipientsCount(flags: seq<bool>, self: int)
    ensures |Recipients(flags, self)| == CountActive(flags) - (if 0 <= self < |flags| && flags[self] then 1 else 0)
  {
    if |flags| > 0 {
      var last := |flags| - 1;
      RecipientsCount(flags[..last], self);
      if 0 <= self < last {
        assert flags[..last][self] == flags[self];
      }
    }
  }

  /** The main loop's condition: go on waiting while several processes are
      live, or while one is and it is not this one. */
  function KeepRunning(live: int, selfActive: bool): (r: bool)
    ensures live >= 1 ==> (!r <==> IsWinner(live, selfActive))
  {
    live > 1 || (live == 1 && !selfActive)
  }

  /** The winner test after the loop: this entry is active and it is the only live one. */
  predicate IsWinner(live: int, selfActive: bool)
  {
    selfActive && live == 1
  }

  /** With a count that matches the flags and one survivor, exactly one process
      wins, and every other process stays in its loop. */
  lemma SoleSurvivorWins(flags: seq<bool>, live: int)
    requires live == CountActive(flags) == 1
    ensures exists w :: 0 <= w < |flags| && IsWinner(live, flags[w])
    ensures forall a, b :: 0 <= a < |flags| && 0 <= b < |flags| && IsWinner(live, flags[a]) && IsWinner(live, flags[b]) ==> a == b
    ensures forall k :: 0 <= k < |flags| && !IsWinner(live, flags[k]) ==> KeepRunning(live, flags[k])
  {
    CountZero(flags);
    var w := Highest(flags);
    assert IsWinner(live, flags[w]);
    forall a, b | 0 <= a < |flags| && 0 <= b < |flags| && IsWinner(live, flags[a]) && IsWinner(live, flags[b])
      ensures a == b
    {
      if a < b {
        CountTwo(flags, a, b);
      } else if b < a {
        CountTwo(flags, b, a);
      }
    }
  }

  /** While the count matches the flags and more than one entry is active, no
      process can pass the winner test. */
  lemma NoWinnerWhileSeveralLive(flags: seq<bool>, live: int, me: int)
    requires live == CountActive(flags) && 0 <= me < |flags|
    requires exists k :: 0 <= k < |flags| && k != me && flags[k]
    ensures !IsWinner(live, flags[me])
  {
    var k :| 0 <= k < |flags| && k != me && flags[k];
    if flags[me] {
      if k < me { CountTwo(flags, k, me); } else { CountTwo(flags, me, k); }
    }
  }
}
