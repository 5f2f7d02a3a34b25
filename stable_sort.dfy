/** LINQ's `OrderBy(key)`: a stable sort on a numeric key. It is written as
    an insertion sort; what it promises is that the result is a permutation,
    ordered by the key, with elements of equal key in their earlier order. */
module StableSort {

  /** Puts `x` after every element of `t` whose key is at most its own, so
      into a key-ordered `t` it goes after its equals. */
  function Insert<T>(x: T, t: seq<T>, key: T -> nat): (r: seq<T>)
    ensures multiset(r) == multiset(t) + multiset{x}
  {
    if t == [] then [x]
    else if key(t[0]) > key(x) then [x] + t
    else
      assert t == [t[0]] + t[1..];
      [t[0]] + Insert(x, t[1..], key)
  }

  /** `s.OrderBy(key)`. */
  function SortBy<T>(s: seq<T>, key: T -> nat): (r: seq<T>)
    ensures multiset(r) == multiset(s)
  {
    if s == [] then []
    else
      assert s == s[..|s| - 1] + [s[|s| - 1]];
      Insert(s[|s| - 1], SortBy(s[..|s| - 1], key), key)
  }

  /** Every element of `t` is `before` every later one. */
  ghost predicate Ordered<T>(t: seq<T>, before: (T, T) -> bool) {
    forall i, j | 0 <= i < j < |t| :: before(t[i], t[j])
  }

  /** The order of a stable sort by `key` of a sequence already ordered by
      `before`: a smaller key first, and on equal keys the order `before`. */
  function ByKeyThen<T>(key: T -> nat, before: (T, T) -> bool): (T, T) -> bool {
    (a, b) => key(a) < key(b) || (key(a) == key(b) && before(a, b))
  }

  lemma {:induction false} InsertOrdered<T>(x: T, t: seq<T>, key: T -> nat, before: (T, T) -> bool)
    requires Ordered(t, ByKeyThen(key, before))
    requires forall i | 0 <= i < |t| :: before(t[i], x)
    ensures Ordered(Insert(x, t, key), ByKeyThen(key, before))
  {
    var order := ByKeyThen(key, before);
    if t == [] {
    } else if key(t[0]) > key(x) {
      var r := [x] + t;
      forall i, j | 0 <= i < j < |r| ensures order(r[i], r[j]) {
        if i == 0 {
          assert key(t[0]) <= key(t[j - 1]) by {
            if j - 1 > 0 {
              assert order(t[0], t[j - 1]);
            }
          }
        } else {
          assert order(t[i - 1], t[j - 1]);
        }
      }
    } else {
      var rest := Insert(x, t[1..], key);
      InsertOrdered(x, t[1..], key, before);
      var r := [t[0]] + rest;
      forall i, j | 0 <= i < j < |r| ensures order(r[i], r[j]) {
        if i == 0 {
          var y := rest[j - 1];
          assert y in multiset(rest);
          if y == x {
          } else {
            assert y in multiset(t[1..]);
            var k :| 0 <= k < |t[1..]| && t[1..][k] == y;
            assert order(t[0], t[k + 1]);
          }
        } else {
          assert order(rest[i - 1], rest[j - 1]);
        }
      }
    }
  }

  /** Sorting by `key` a sequence ordered by `before` orders it by key, then
      by `before`: this is what makes `OrderBy` stable. */
  lemma {:induction false} SortByOrdered<T>(s: seq<T>, key: T -> nat, before: (T, T) -> bool)
    requires Ordered(s, before)
    ensures Ordered(SortBy(s, key), ByKeyThen(key, before))
  {
    if s != [] {
      var init, x := s[..|s| - 1], s[|s| - 1];
      SortByOrdered(init, key, before);
      var t := SortBy(init, key);
      forall i | 0 <= i < |t| ensures before(t[i], x) {
        assert t[i] in multiset(init);
        var k :| 0 <= k < |init| && init[k] == t[i];
        assert before(s[k], s[|s| - 1]);
      }
      InsertOrdered(x, t, key, before);
    }
  }
}
