/**
 The attestation rate limiter (apps/control-plane/src/evidence-attestation.ts:529-549).

 The queue drops its head while that is 60 seconds old or older, and admits a request while
 it is shorter than 120.  The clock is an argument; it may run backwards.
 */
module AttestationLimiter {
  const WINDOW_MS: int := 60_000
  const CAPACITY: nat := 120

  /** Any 121 consecutive admissions span at least a window. */
  ghost predicate Spaced(history: seq<int>) {
    forall i, j :: 0 <= i < j < |history| && j == i + CAPACITY ==> history[j] - history[i] >= WINDOW_MS
  }

  ghost predicate Ascending(history: seq<int>) {
    forall i, j :: 0 <= i <= j < |history| ==> history[i] <= history[j]
  }

  /** The admission CAPACITY back, if there is one, is out of the window. */
  ghost predicate RoomAt(history: seq<int>, now: int) {
    |history| < CAPACITY || history[|history| - CAPACITY] <= now - WINDOW_MS
  }

  lemma LongSpan(history: seq<int>, i: nat, k: nat, j: nat)
    requires Spaced(history) && Ascending(history) && i < k <= j < |history| && k == i + CAPACITY
    ensures history[j] - history[i] >= WINDOW_MS
  {
    assert history[k] <= history[j];
  }

  /** No more than CAPACITY admissions fall in any half-open window. */
  lemma WindowHoldsCapacity(history: seq<int>, start: int, i: nat, j: nat)
    requires Spaced(history) && Ascending(history)
    requires i <= j < |history| && start <= history[i] && history[j] < start + WINDOW_MS
    ensures j - i < CAPACITY
  {
    if j - i >= CAPACITY {
      LongSpan(history, i, i + CAPACITY, j);
    }
  }

  /** The first admissions have left the window for good. */
  ghost predicate Gone(history: seq<int>, dropped: nat, latest: int) {
    dropped <= |history| && forall i :: 0 <= i < dropped ==> history[i] <= latest - WINDOW_MS
  }

  ghost predicate Orderly(history: seq<int>, latest: int) {
    Ascending(history) && Spaced(history) && (|history| > 0 ==> history[|history| - 1] <= latest)
  }

  lemma NothingAdmitted(latest: int)
    ensures Gone([], 0, latest) && Orderly([], latest)
  {
  }

  lemma GoneLater(history: seq<int>, dropped: nat, was: int, now: int)
    requires was <= now
    ensures Gone(history, dropped, was) ==> Gone(history, dropped, now)
    ensures Orderly(history, was) ==> Orderly(history, now)
  {
  }

  lemma QueueDecides(history: seq<int>, dropped: nat, now: int)
    requires Gone(history, dropped, now) && |history| - dropped <= CAPACITY
    requires dropped < |history| ==> history[dropped] > now - WINDOW_MS
    ensures |history| - dropped < CAPACITY <==> RoomAt(history, now)
  {
  }

  lemma AdmissionKeepsOrder(history: seq<int>, dropped: nat, now: int)
    requires Orderly(history, now) && Gone(history, dropped, now) && RoomAt(history, now)
    ensures Orderly(history + [now], now) && Gone(history + [now], dropped, now)
  {
    var after := history + [now];
    forall i, j | 0 <= i <= j < |after| ensures after[i] <= after[j] {
      assert i < |history| ==> history[i] <= history[|history| - 1];
    }
    forall i, j | 0 <= i < j < |after| && j == i + CAPACITY ensures after[j] - after[i] >= WINDOW_MS {
      if j == |history| {
        assert after[i] == history[|history| - CAPACITY];
      }
    }
  }

  class Limiter {
    var recent: seq<int>
    ghost var history: seq<int>  // every admission so far
    ghost var dropped: nat       // how many of them have left the queue
    ghost var latest: int        // the clock at the last call
    ghost var steady: bool       // the clock has not run backwards

    ghost predicate Valid()
      reads this
    {
      && |recent| <= CAPACITY && dropped <= |history| && recent == history[dropped..]
      && (steady ==> Gone(history, dropped, latest) && Orderly(history, latest))
    }

    constructor (start: int)
      ensures Valid() && history == [] && steady && latest == start
    {
      recent, history, dropped, latest, steady := [], [], 0, start, true;
      new;
      NothingAdmitted(start);
    }

    /** Drops the head of the queue while it is out of the window. */
    method DropOld(now: int)
      requires Valid() && latest == now
      modifies `recent, `dropped
      ensures Valid() && (recent != [] ==> recent[0] > now - WINDOW_MS)
    {
      hide Orderly;
      while recent != [] && recent[0] <= now - WINDOW_MS
        invariant Valid()
        decreases |recent|
      {
        recent := recent[1..];
        dropped := dropped + 1;
      }
    }

    /** With a steady clock a request is admitted exactly when the window has room; with any clock
        the queue never exceeds its capacity. */
    method Admit(now: int) returns (admitted: bool)
      requires Valid()
      modifies this
      ensures Valid() && latest == now && steady == (old(steady) && now >= old(latest))
      ensures history == old(history) + (if admitted then [now] else [])
      ensures steady ==> (admitted <==> RoomAt(old(history), now))
    {
      hide Orderly, Gone, RoomAt;
      if now >= latest {
        GoneLater(history, dropped, latest, now);
      }
      steady := steady && now >= latest;
      latest := now;
      DropOld(now);
      admitted := |recent| < CAPACITY;
      if steady {
        QueueDecides(history, dropped, now);
        if admitted {
          AdmissionKeepsOrder(history, dropped, now);
        }
      }
      if admitted {
        recent := recent + [now];
        history := history + [now];
      }
    }
  }
}
