// Chains of stable passes: what one pass leaves of the order the pass before made, and when the
// result is sorted by value.
module StableChain {
  import opened Remainders
  import opened CountingOrder

  // Keys handed to a chain lie in -9..9.
  const MAX_KEY := 9

  // One number for two keys: g decides, then f, which lies in 0..c-1.
  function Combined(f: Key, g: Key, c: nat): Key {
    x => (g(x) + MAX_KEY) * c + f(x)
  }

  lemma {:induction false} FilterKeepsOrder(s: seq<int>, key: Key, v: int, rank: Key)
    requires Ordered(s, rank)
    ensures Ordered(Filter(s, key, v), rank)
    ensures forall x :: x in Filter(s, key, v) ==> x in s
  {
    if s != [] {
      FilterKeepsOrder(s[1..], key, v, rank);
      var f := Filter(s[1..], key, v);
      forall j | 0 <= j < |f| ensures rank(s[0]) <= rank(f[j]) {
        assert f[j] in f;
        var k :| 0 <= k < |s[1..]| && s[1..][k] == f[j];
        assert s[k + 1] == f[j];
      }
    }
  }

  // Two elements of one group keep their order in the group.
  lemma GroupOrder(s: seq<int>, key: Key, i: nat, j: nat)
    requires i < j < |s| && key(s[i]) == key(s[j])
    ensures |Filter(s[..i], key, key(s[i]))| < |Filter(s[..j], key, key(s[i]))|
  {
    var v := key(s[i]);
    assert s[..j] == s[..i] + ([s[i]] + s[i + 1..j]);
    FilterAppend(s[..i], [s[i]] + s[i + 1..j], key, v);
  }

  // A stable pass keeps an earlier order inside each of its groups.
  lemma PassKeepsRank(out: seq<int>, s: seq<int>, key: Key, rank: Key, i: nat, j: nat)
    requires StablySorted(out, s, key) && Ordered(s, rank)
    requires i < j < |out| && key(out[i]) == key(out[j])
    ensures rank(out[i]) <= rank(out[j])
  {
    var v := key(out[i]);
    FilterKeepsOrder(s, key, v, rank);
    FilterAt(out, key, i);
    FilterAt(out, key, j);
    GroupOrder(out, key, i, j);
    assert Filter(out, key, v) == Filter(s, key, v);
  }

  lemma {:induction false} FilterBoth(s: seq<int>, f: Key, g: Key, u: int, w: int, h: Key, v: int)
    requires forall x :: h(x) == v <==> f(x) == u && g(x) == w
    ensures Filter(s, h, v) == Filter(Filter(s, f, u), g, w)
  {
    if s != [] {
      FilterBoth(s[1..], f, g, u, w, h, v);
      var rest, all := Filter(s[1..], f, u), Filter(s, f, u);
      assert h(s[0]) == v <==> f(s[0]) == u && g(s[0]) == w;
      if f(s[0]) == u {
        assert all == [s[0]] + rest && all[1..] == rest;
      } else {
        assert all == rest;
      }
    }
  }

  lemma CombinedParts(f: Key, g: Key, c: nat, x: int, v: int)
    requires 0 <= f(x) < c
    ensures Combined(f, g, c)(x) == v <==> f(x) == v - v / c * c && g(x) == v / c - MAX_KEY
  {
    var d := g(x) + MAX_KEY - v / c;
    assert v == v / c * c + v % c;
    MultipleIsFar(d, c);
    assert d * c == (g(x) + MAX_KEY) * c - v / c * c;
  }

  lemma HigherKeyWins(g: int, h: int, c: nat)
    requires g < h
    ensures g * c + c <= h * c
  {
    MultipleIsFar(h - g, c);
    assert (h - g) * c == h * c - g * c;
  }

  // Two stable passes in a row are one stable pass by the combined key.
  lemma PassesCompose(out: seq<int>, mid: seq<int>, s: seq<int>, f: Key, g: Key, c: nat)
    requires c > 0 && forall x: int :: 0 <= f(x) < c
    requires StablySorted(mid, s, f) && StablySorted(out, mid, g)
    ensures StablySorted(out, s, Combined(f, g, c))
  {
    hide Filter;
    var h := Combined(f, g, c);
    forall i, j | 0 <= i < j < |out| ensures h(out[i]) <= h(out[j]) { CombinedRises(out, mid, s, f, g, c, i, j); }
    forall v ensures Filter(out, h, v) == Filter(s, h, v) {
      var u, w := v - v / c * c, v / c - MAX_KEY;
      forall x ensures h(x) == v <==> f(x) == u && g(x) == w { CombinedParts(f, g, c, x, v); }
      GroupsCompose(out, mid, s, f, g, u, w, h, v);
    }
  }

  lemma CombinedRises(
    out: seq<int>, mid: seq<int>, s: seq<int>, f: Key, g: Key, c: nat, i: nat, j: nat)
    requires forall x: int :: 0 <= f(x) < c
    requires StablySorted(mid, s, f) && StablySorted(out, mid, g) && i < j < |out|
    ensures Combined(f, g, c)(out[i]) <= Combined(f, g, c)(out[j])
  {
    if g(out[i]) == g(out[j]) {
      PassKeepsRank(out, mid, g, f, i, j);
    } else {
      assert g(out[i]) <= g(out[j]);
      HigherKeyWins(g(out[i]) + MAX_KEY, g(out[j]) + MAX_KEY, c);
      var x, y := out[i], out[j];
      assert 0 <= f(x) < c && 0 <= f(y) < c;
    }
  }

  // The elements with both keys are the same, in the same order, before and after both passes.
  lemma GroupsCompose(
    out: seq<int>, mid: seq<int>, s: seq<int>, f: Key, g: Key, u: int, w: int, h: Key, v: int)
    requires forall x :: h(x) == v <==> f(x) == u && g(x) == w
    requires StablySorted(mid, s, f) && StablySorted(out, mid, g)
    ensures Filter(out, h, v) == Filter(s, h, v)
  {
    hide Filter, Ordered;
    FilterBoth(out, g, f, w, u, h, v);
    FilterBoth(mid, g, f, w, u, h, v);
    FilterBoth(mid, f, g, u, w, h, v);
    FilterBoth(s, f, g, u, w, h, v);
  }

  // ---------------------------------------------------------------- sorted by value

  ghost predicate Sorted(s: seq<int>) {
    forall i, j :: 0 <= i < j < |s| ==> s[i] <= s[j]
  }

  // The key tells smaller from larger elements, or, where it does not, the input already had
  // the smaller one in front.
  ghost predicate KeyAgrees(s: seq<int>, key: Key) {
    forall i, j :: 0 <= i < |s| && 0 <= j < |s| && s[i] < s[j] ==>
      key(s[i]) < key(s[j]) || (key(s[i]) == key(s[j]) && i < j)
  }

  // Sequences with the same groups hold the members of a group in the same order.
  lemma SameOrderInGroup(s: seq<int>, t: seq<int>, key: Key, i: nat, j: nat) returns (a: nat, b: nat)
    requires forall v :: Filter(s, key, v) == Filter(t, key, v)
    requires i < j < |s| && key(s[i]) == key(s[j])
    ensures a < b < |t| && t[a] == s[i] && t[b] == s[j]
  {
    var v := key(s[i]);
    GroupOrder(s, key, i, j);
    FilterAt(s, key, i);
    FilterAt(s, key, j);
    assert Filter(s, key, v) == Filter(t, key, v);
    a := FilterSource(t, key, v, |Filter(s[..i], key, v)|);
    b := FilterSource(t, key, v, |Filter(s[..j], key, v)|);
    FilterAt(t, key, a);
    FilterAt(t, key, b);
    if b < a { GroupOrder(t, key, b, a); }
  }

  lemma SameElement(s: seq<int>, t: seq<int>, key: Key, i: nat) returns (a: nat)
    requires forall v :: Filter(s, key, v) == Filter(t, key, v)
    requires i < |s|
    ensures a < |t| && t[a] == s[i]
  {
    FilterAt(s, key, i);
    assert Filter(s, key, key(s[i])) == Filter(t, key, key(s[i]));
    a := FilterSource(t, key, key(s[i]), |Filter(s[..i], key, key(s[i]))|);
    FilterAt(t, key, a);
  }

  // A stable pass leaves the values sorted exactly when its key agrees with their order.
  lemma SortedExactly(out: seq<int>, s: seq<int>, key: Key)
    requires StablySorted(out, s, key)
    ensures Sorted(out) <==> KeyAgrees(s, key)
  {
    if Sorted(out) {
      forall i, j | 0 <= i < |s| && 0 <= j < |s| && s[i] < s[j]
        ensures key(s[i]) < key(s[j]) || (key(s[i]) == key(s[j]) && i < j)
      {
        var a := SameElement(s, out, key, i);
        var b := SameElement(s, out, key, j);
        if key(s[i]) == key(s[j]) && j < i {
          var c, d := SameOrderInGroup(s, out, key, j, i);
        }
      }
    }
    if KeyAgrees(s, key) {
      forall i, j | 0 <= i < j < |out| ensures out[i] <= out[j] {
        if key(out[i]) == key(out[j]) {
          var a, b := SameOrderInGroup(out, s, key, i, j);
        } else {
          var a := SameElement(out, s, key, i);
          var b := SameElement(out, s, key, j);
        }
      }
    }
  }
}
