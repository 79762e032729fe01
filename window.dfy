/**
 * The sliding window of `TailHandler.record_error`: the per-(ip, status)
 * queue of event times, its eviction from the front, and the strict
 * "more than `limit`" ban rule. Times are integer epoch seconds.
 */
module Window {

  /** One policy entry, `{"limit": ..., "window": ...}` for a status code. */
  datatype Rule = Rule(limit: int, window: int)

  /**
   * The `while q and q[0] < cutoff: q.popleft()` loop, as a function:
   * drop events from the front while the oldest is strictly before `cutoff`.
   */
  function Evict(q: seq<int>, cutoff: int): seq<int>
    decreases |q|
  {
    if q != [] && q[0] < cutoff then Evict(q[1..], cutoff) else q
  }

  /** The window after `append(t)` and eviction against `now - window`. */
  function Recorded(w: seq<int>, t: int, now: int, rule: Rule): seq<int> {
    Evict(w + [t], now - rule.window)
  }

  /** The ban test of `record_error`: strictly more events than the limit. */
  predicate Bans(w: seq<int>, rule: Rule) {
    |w| > rule.limit
  }

  predicate Sorted(q: seq<int>) {
    forall i, j :: 0 <= i <= j < |q| ==> q[i] <= q[j]
  }

  /** The events of `q` at or after `cutoff`, in order. */
  function AtOrAfter(q: seq<int>, cutoff: int): seq<int> {
    if q == [] then []
    else (if q[0] >= cutoff then [q[0]] else []) + AtOrAfter(q[1..], cutoff)
  }

  /**
   * Eviction removes a prefix of stale events and nothing else: the result is
   * a suffix of the queue, every dropped event is strictly before `cutoff`,
   * and the new oldest event (if any) is at or after `cutoff`, so an event
   * exactly at `cutoff` is kept.
   */
  lemma {:induction false} EvictDropsStalePrefix(q: seq<int>, cutoff: int)
    ensures |Evict(q, cutoff)| <= |q|
    ensures Evict(q, cutoff) == q[|q| - |Evict(q, cutoff)|..]
    ensures forall i :: 0 <= i < |q| - |Evict(q, cutoff)| ==> q[i] < cutoff
    ensures Evict(q, cutoff) == [] || Evict(q, cutoff)[0] >= cutoff
    decreases |q|
  {
    if q != [] && q[0] < cutoff {
      EvictDropsStalePrefix(q[1..], cutoff);
      var r := Evict(q, cutoff);
      assert q[1..][|q| - 1 - |r|..] == q[|q| - |r|..];
      forall i | 0 <= i < |q| - |r| ensures q[i] < cutoff {
        if i > 0 { assert q[i] == q[1..][i - 1]; }
      }
    }
  }

  /**
   * On a queue in time order, every event left after eviction is at or after
   * the cutoff, not just the oldest one.
   */
  lemma SortedWindowInside(q: seq<int>, cutoff: int)
    requires Sorted(q)
    ensures forall i :: 0 <= i < |Evict(q, cutoff)| ==> Evict(q, cutoff)[i] >= cutoff
  {
    EvictDropsStalePrefix(q, cutoff);
    var r := Evict(q, cutoff);
    var k := |q| - |r|;
    forall i | 0 <= i < |r| ensures r[i] >= cutoff {
      assert r[0] == q[k] && r[i] == q[k + i];
    }
  }

  /** Evicting twice against the same cutoff is evicting once. */
  lemma EvictIdempotent(q: seq<int>, cutoff: int)
    ensures Evict(Evict(q, cutoff), cutoff) == Evict(q, cutoff)
  {
    EvictDropsStalePrefix(q, cutoff);
  }

  lemma {:induction false} AtOrAfterAll(q: seq<int>, cutoff: int)
    requires forall i :: 0 <= i < |q| ==> q[i] >= cutoff
    ensures AtOrAfter(q, cutoff) == q
  {
    if q != [] {
      AtOrAfterAll(q[1..], cutoff);
      assert [q[0]] + q[1..] == q;
    }
  }

  /**
   * On a queue in time order, eviction keeps exactly the events at or after
   * `cutoff`: the window's length is the number of recorded events inside it.
   */
  lemma {:induction false} EvictSortedKeepsInWindow(q: seq<int>, cutoff: int)
    requires Sorted(q)
    ensures Evict(q, cutoff) == AtOrAfter(q, cutoff)
    decreases |q|
  {
    if q != [] {
      if q[0] < cutoff {
        EvictSortedKeepsInWindow(q[1..], cutoff);
      } else {
        AtOrAfterAll(q, cutoff);
      }
    }
  }

  /** Appending an event no older than the newest one keeps the window in time order. */
  lemma RecordedStaysSorted(w: seq<int>, t: int, now: int, rule: Rule)
    requires Sorted(w) && (w == [] || w[|w| - 1] <= t)
    ensures Sorted(Recorded(w, t, now, rule))
  {
    var q := w + [t];
    assert Sorted(q) by {
      forall i, j | 0 <= i <= j < |q| ensures q[i] <= q[j] {
        if j == |w| && i < |w| { assert w[i] <= w[|w| - 1]; }
      }
    }
    EvictDropsStalePrefix(q, now - rule.window);
    var r := Recorded(w, t, now, rule);
    var k := |q| - |r|;
    forall i, j | 0 <= i <= j < |r| ensures r[i] <= r[j] {
      assert r[i] == q[k + i] && r[j] == q[k + j];
    }
  }

  /**
   * The boundary of the ban rule: when all recorded events, the new one
   * included, lie inside the window, nothing is evicted and the call bans
   * exactly when there are now more than `limit` events; `limit` events do
   * not ban, `limit + 1` do.
   */
  lemma BanThreshold(w: seq<int>, t: int, now: int, rule: Rule)
    requires forall i :: 0 <= i < |w| ==> w[i] >= now - rule.window
    requires t >= now - rule.window
    ensures Recorded(w, t, now, rule) == w + [t]
    ensures Bans(Recorded(w, t, now, rule), rule) <==> |w| + 1 > rule.limit
    ensures |w| + 1 == rule.limit ==> !Bans(Recorded(w, t, now, rule), rule)
    ensures |w| + 1 == rule.limit + 1 ==> Bans(Recorded(w, t, now, rule), rule)
  {
    if w != [] {
      assert (w + [t])[0] == w[0];
    }
  }

  /**
   * Eviction is driven by the queue's order, not by the events' times: an
   * older event recorded after a newer one survives behind it even when it
   * lies before the cutoff.
   */
  lemma OutOfOrderEventSurvives()
    ensures Recorded([100], 10, 100, Rule(5, 60)) == [100, 10]
  {
  }
}
