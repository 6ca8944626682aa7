/** How many threads of a step system are at a given kind of program point. */
module Counting {
  type Tid = nat

  ghost function Members<K>(threads: map<Tid, K>, p: K -> bool): set<Tid>
  {
    set t | t in threads && p(threads[t])
  }

  ghost function Count<K>(threads: map<Tid, K>, p: K -> bool): nat
  {
    |Members(threads, p)|
  }

  function Weigh(b: bool): nat
  {
    if b then 1 else 0
  }

  /** Moving one thread changes a count by what it leaves and what it reaches. */
  lemma CountMove<K>(threads: map<Tid, K>, t: Tid, k: K, p: K -> bool)
    ensures Count(threads[t := k], p) == Count(threads, p) - Weigh(t in threads && p(threads[t])) + Weigh(p(k))
  {
    var before, after := Members(threads, p), Members(threads[t := k], p);
    var others := before - {t};
    assert after == if p(k) then others + {t} else others;
    assert before == if t in threads && p(threads[t]) then others + {t} else others;
  }

  lemma CountPositive<K>(threads: map<Tid, K>, t: Tid, p: K -> bool)
    requires t in threads && p(threads[t])
    ensures Count(threads, p) > 0
  {
    assert t in Members(threads, p);
  }

  lemma CountZero<K>(threads: map<Tid, K>, p: K -> bool)
    requires forall t :: t in threads ==> !p(threads[t])
    ensures Count(threads, p) == 0
  {
    assert Members(threads, p) == {};
  }

  /** The sum of the weights of all threads, no weight counting for more than `max`. */
  ghost function Sum<K>(threads: map<Tid, K>, w: K -> nat, max: nat): nat
  {
    if max == 0 then 0 else Count(threads, AtLeast(w, max)) + Sum(threads, w, max - 1)
  }

  function AtLeast<K>(w: K -> nat, n: nat): K -> bool
  {
    k => w(k) >= n
  }

  function Cap(n: nat, max: nat): nat
  {
    if n < max then n else max
  }

  lemma {:induction false} SumMove<K>(threads: map<Tid, K>, t: Tid, k: K, w: K -> nat, max: nat)
    ensures Sum(threads[t := k], w, max) ==
            Sum(threads, w, max) - (if t in threads then Cap(w(threads[t]), max) else 0) + Cap(w(k), max)
  {
    hide Count;
    if max > 0 {
      SumMove(threads, t, k, w, max - 1);
      CountMove(threads, t, k, AtLeast(w, max));
    }
  }
}
