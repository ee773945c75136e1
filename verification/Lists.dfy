/** Sequences as the `LIST_*` and `TAILQ_*` macros of `<sys/queue.h>` use them. */
module Lists {
  datatype Option<+T> = None | Some(value: T)

  ghost predicate NoDup<T>(s: seq<T>) {
    forall a, b :: 0 <= a < b < |s| ==> s[a] != s[b]
  }

  /** `LIST_REMOVE`: the list without the element `x`. */
  function Without<T(==)>(s: seq<T>, x: T): (r: seq<T>)
    ensures |r| <= |s|
    ensures x !in s ==> r == s
  {
    if s == [] then []
    else if s[0] == x then s[1..]
    else [s[0]] + Without(s[1..], x)
  }

  lemma {:induction false} WithoutElements<T>(s: seq<T>, x: T)
    requires NoDup(s)
    ensures NoDup(Without(s, x))
    ensures forall y :: y in Without(s, x) <==> y in s && y != x
    ensures x in s ==> |Without(s, x)| == |s| - 1
  {
    if s != [] {
      assert s == [s[0]] + s[1..];
      if s[0] != x {
        WithoutElements(s[1..], x);
        assert s[0] !in s[1..];
        NoDupCons(s[0], Without(s[1..], x));
      }
    }
  }

  lemma NoDupCons<T>(x: T, s: seq<T>)
    requires NoDup(s) && x !in s
    ensures NoDup([x] + s)
  {
  }

  lemma NoDupConcat<T>(a: seq<T>, b: seq<T>)
    requires NoDup(a) && NoDup(b) && (forall x :: x in a ==> x !in b)
    ensures NoDup(a + b)
  {
    forall i, j | 0 <= i < j < |a + b|
      ensures (a + b)[i] != (a + b)[j]
    {
      if i < |a| <= j {
        assert a[i] in a && b[j - |a|] in b;
      }
    }
  }

  lemma NoDupSuffix<T>(s: seq<T>, i: nat)
    requires NoDup(s) && i <= |s|
    ensures NoDup(s[i..])
  {
  }

  /** Different integers of a range are no more than the range has. */
  lemma {:induction false} NoDupInRange(s: seq<int>, a: int, b: int)
    requires NoDup(s) && a <= b && (forall x :: x in s ==> a <= x < b)
    ensures |s| <= b - a
    decreases b - a
  {
    if s != [] {
      var x := s[0];
      assert x in s;
      WithoutElements(s, b - 1);
      NoDupInRange(Without(s, b - 1), a, b - 1);
    }
  }

  // ----- order

  /** `x` stands ahead of `y`. */
  ghost predicate Before<T>(s: seq<T>, x: T, y: T) {
    exists a, b :: 0 <= a < b < |s| && s[a] == x && s[b] == y
  }

  lemma BeforeCons<T>(h: T, s: seq<T>, x: T, y: T)
    ensures Before([h] + s, x, y) <==> (x == h && y in s) || Before(s, x, y)
  {
    var r := [h] + s;
    if Before(r, x, y) {
      var a, b :| 0 <= a < b < |r| && r[a] == x && r[b] == y;
      assert s[b - 1] == y && (a > 0 ==> s[a - 1] == x);
    }
    if x == h && y in s {
      var b :| 0 <= b < |s| && s[b] == y;
      assert r[0] == x && r[b + 1] == y;
    }
    if Before(s, x, y) {
      var a, b :| 0 <= a < b < |s| && s[a] == x && s[b] == y;
      assert r[a + 1] == x && r[b + 1] == y;
    }
  }

  lemma BeforeMembers<T>(s: seq<T>, x: T, y: T)
    requires Before(s, x, y)
    ensures x in s && y in s
  {
  }

  /** What was there and stays keeps its order, and what is new stands ahead of it. */
  ghost predicate NewFirst(was: seq<nat>, now: seq<nat>) {
    forall x, y :: x in now && y in now && y in was ==>
      if x in was then Before(now, x, y) <==> Before(was, x, y) else Before(now, x, y)
  }

  lemma NewFirstCons(was: seq<nat>, now: seq<nat>, h: nat)
    requires NewFirst(was, now) && h !in was && h !in now
    ensures NewFirst(was, [h] + now)
  {
    forall x, y | x in [h] + now && y in [h] + now && y in was
      ensures if x in was then Before([h] + now, x, y) <==> Before(was, x, y) else Before([h] + now, x, y)
    {
      BeforeCons(h, now, x, y);
    }
  }

  lemma {:induction false} NewFirstWithout(s: seq<nat>, x: nat)
    requires NoDup(s)
    ensures NewFirst(s, Without(s, x))
  {
    if s != [] {
      var h, t := s[0], s[1..];
      assert s == [h] + t && h !in t;
      WithoutElements(s, x);
      WithoutElements(t, x);
      NewFirstWithout(t, x);
      forall y, z | y in Without(s, x) && z in Without(s, x)
        ensures Before(Without(s, x), y, z) <==> Before(s, y, z)
      {
        BeforeCons(h, t, y, z);
        BeforeCons(h, Without(t, x), y, z);
        if Before(t, y, z) {
          BeforeMembers(t, y, z);
        }
      }
    }
  }

  /** The second element goes, the first and the rest stay. */
  lemma WithoutSecond(s: seq<nat>, x: nat)
    requires |s| >= 2 && s[1] == x && s[0] != x
    ensures |Without(s, x)| == |s| - 1 && Without(s, x)[0] == s[0] && Without(s, x)[1..] == s[2..]
  {
    assert s[1..][0] == x && s[1..][1..] == s[2..];
    assert Without(s[1..], x) == s[2..];
  }

  /** One or two elements taken out. */
  ghost predicate Thinned(was: seq<nat>, now: seq<nat>) {
    || (exists x :: now == Without<nat>(was, x))
    || (exists x, y :: now == Without<nat>(Without<nat>(was, x), y))
  }

  lemma NewFirstThinned(was: seq<nat>, now: seq<nat>)
    requires NoDup(was) && Thinned(was, now)
    ensures NewFirst(was, now)
  {
    if x :| now == Without<nat>(was, x) {
      NewFirstWithout(was, x);
    } else {
      var x, y :| now == Without<nat>(Without<nat>(was, x), y);
      WithoutElements(was, x);
      WithoutElements(Without(was, x), y);
      NewFirstWithout(was, x);
      NewFirstWithout(Without(was, x), y);
    }
  }

  /** Elements put at the head. */
  ghost predicate Headed(was: seq<nat>, now: seq<nat>) {
    |was| <= |now| && now[|now| - |was|..] == was
  }

  lemma {:induction false} NewFirstHeaded(was: seq<nat>, now: seq<nat>)
    requires NoDup(now) && Headed(was, now)
    ensures NewFirst(was, now)
    decreases |now|
  {
    if |now| > |was| {
      var h, t := now[0], now[1..];
      assert now == [h] + t && t[|t| - |was|..] == was;
      NewFirstHeaded(was, t);
      NewFirstCons(was, t, h);
    }
  }
}
