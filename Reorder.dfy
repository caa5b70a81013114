// The games:reorder handler, electron/main.js lines 1319-1334: the stored
// games are put in the order of a list of ids sent by the window; games the
// list does not name follow in their stored order.

module Reorder {
  import opened Records

  /** The `orderedIds` argument: an array of ids, or some other value. */
  datatype OrderInput = IdArray(ids: seq<int>) | NotArray

  /** The reply: an error for a non-array argument, or success together with
      the list that is written back. */
  datatype ReorderResult = InvalidOrder | Reordered(games: seq<Game>)

  predicate Distinct(s: seq<int>) {
    forall i, j :: 0 <= i < j < |s| ==> s[i] != s[j]
  }

  /** No two stored games share an id. */
  predicate UniqueIds(games: seq<Game>) {
    forall i, j :: 0 <= i < j < |games| ==> games[i].id != games[j].id
  }

  // ---------------------------------------------------------------------
  // The Map from id to game that the handler builds from the stored list
  // ---------------------------------------------------------------------

  /** The Map's values: for each id, the last game with that id, since a
      later entry with the same key replaces the value. */
  function MapValues(games: seq<Game>): (m: map<int, Game>)
    ensures forall k :: k in m ==> m[k].id == k
    ensures forall i :: 0 <= i < |games| ==> games[i].id in m
    decreases |games|
  {
    if games == [] then map[]
    else
      var prefix := games[..|games| - 1];
      var g := games[|games| - 1];
      assert forall i :: 0 <= i < |prefix| ==> prefix[i] == games[i];
      MapValues(prefix)[g.id := g]
  }

  /** Every value of the Map is one of the games it was built from. */
  lemma {:induction false} MapValuesFrom(games: seq<Game>)
    ensures forall k :: k in MapValues(games) ==> MapValues(games)[k] in games
    decreases |games|
  {
    if games != [] {
      var prefix := games[..|games| - 1];
      MapValuesFrom(prefix);
      assert forall h :: h in prefix ==> h in games;
    }
  }

  /** The Map's keys in iteration order: each id once, where it first
      occurs, since replacing a value keeps the key's place. */
  function MapKeys(games: seq<Game>): (r: seq<int>)
    ensures forall k :: k in r <==> k in MapValues(games)
    decreases |games|
  {
    if games == [] then []
    else
      var keys := MapKeys(games[..|games| - 1]);
      var id := games[|games| - 1].id;
      if id in keys then keys else keys + [id]
  }

  /** The values stored under the keys `ks`, in that order. */
  function Lookup(ks: seq<int>, m: map<int, Game>): (r: seq<Game>)
    requires forall k :: k in ks ==> k in m
    ensures |r| == |ks|
    ensures forall a :: 0 <= a < |ks| ==> ks[a] in m && r[a] == m[ks[a]]
    decreases |ks|
  {
    assert forall a :: 0 <= a < |ks| ==> ks[a] in ks;
    if ks == [] then []
    else
      var k := ks[|ks| - 1];
      assert k in ks;
      Lookup(ks[..|ks| - 1], m) + [m[k]]
  }

  /** The key order after the Map deletes key `x`: `x` is gone, the other
      keys keep their order. */
  function RemoveKey(ks: seq<int>, x: int): (r: seq<int>)
    ensures forall k :: k in r <==> k in ks && k != x
    decreases |ks|
  {
    if ks == [] then []
    else
      var prefix := ks[..|ks| - 1];
      var rest := RemoveKey(prefix, x);
      var k := ks[|ks| - 1];
      assert forall j :: 0 <= j < |ks| - 1 ==> prefix[j] == ks[j];
      if k == x then rest else rest + [k]
  }

  /** The keys of `ks` that are not in `t`, in the order of `ks`. */
  function Without(ks: seq<int>, t: seq<int>): (r: seq<int>)
    ensures forall k :: k in r <==> k in ks && k !in t
    decreases |ks|
  {
    if ks == [] then []
    else
      var prefix := ks[..|ks| - 1];
      var rest := Without(prefix, t);
      var k := ks[|ks| - 1];
      assert forall j :: 0 <= j < |ks| - 1 ==> prefix[j] == ks[j];
      if k in t then rest else rest + [k]
  }

  /** The ids the loop over `orderedIds` finds in the Map, in the order it
      finds them: an id is taken when it is a key (`avail`) that was not
      taken before, so unknown and repeated ids are skipped. */
  function Taken(ids: seq<int>, avail: set<int>): (r: seq<int>)
    ensures forall x :: x in r <==> x in ids && x in avail
    decreases |ids|
  {
    if ids == [] then []
    else
      var t := Taken(ids[..|ids| - 1], avail);
      var x := ids[|ids| - 1];
      assert forall y :: y in ids <==> y in ids[..|ids| - 1] || y == x;
      if x in avail && x !in t then t + [x] else t
  }

  /** Each id is taken at most once. */
  lemma {:induction false} TakenDistinct(ids: seq<int>, avail: set<int>)
    ensures Distinct(Taken(ids, avail))
    decreases |ids|
  {
    if ids != [] {
      var t := Taken(ids[..|ids| - 1], avail);
      TakenDistinct(ids[..|ids| - 1], avail);
      if ids[|ids| - 1] in avail && ids[|ids| - 1] !in t {
        DistinctSnoc(t, ids[|ids| - 1]);
      }
    }
  }

  /** The Map's key order holds each id once. */
  lemma {:induction false} MapKeysDistinct(games: seq<Game>)
    ensures Distinct(MapKeys(games))
    decreases |games|
  {
    if games != [] {
      var keys := MapKeys(games[..|games| - 1]);
      MapKeysDistinct(games[..|games| - 1]);
      if games[|games| - 1].id !in keys {
        DistinctSnoc(keys, games[|games| - 1].id);
      }
    }
  }

  /** Filtering a key order keeps each key once. */
  lemma {:induction false} WithoutDistinct(ks: seq<int>, t: seq<int>)
    requires Distinct(ks)
    ensures Distinct(Without(ks, t))
    decreases |ks|
  {
    if ks != [] {
      var prefix := ks[..|ks| - 1];
      var k := ks[|ks| - 1];
      DistinctUnsnoc(ks);
      WithoutDistinct(prefix, t);
      if k !in t {
        DistinctSnoc(Without(prefix, t), k);
      }
    }
  }

  lemma {:induction false} DistinctSnoc(s: seq<int>, x: int)
    requires Distinct(s) && x !in s
    ensures Distinct(s + [x])
  {
    forall i, j | 0 <= i < j < |s| + 1 ensures (s + [x])[i] != (s + [x])[j] {
      assert (s + [x])[i] == s[i];
      if j == |s| {
        assert s[i] in s;
      }
    }
  }

  lemma {:induction false} DistinctUnsnoc(s: seq<int>)
    requires Distinct(s) && s != []
    ensures Distinct(s[..|s| - 1]) && s[|s| - 1] !in s[..|s| - 1]
  {
    var prefix := s[..|s| - 1];
    assert forall j :: 0 <= j < |prefix| ==> prefix[j] == s[j];
  }

  /** What games:reorder writes: the games the ids name, in the order they
      are named, then the Map's remaining values in its key order. */
  function ReorderSpec(games: seq<Game>, ids: seq<int>): (r: seq<Game>)
    ensures forall g :: g in r ==> g in games
  {
    var values := MapValues(games);
    MapValuesFrom(games);
    var taken := Taken(ids, values.Keys);
    Lookup(taken, values) + Lookup(Without(MapKeys(games), taken), values)
  }

  // ---------------------------------------------------------------------
  // The handler
  // ---------------------------------------------------------------------

  /** The table after the keys in `t` are deleted. */
  function Remaining(m: map<int, Game>, t: seq<int>): (r: map<int, Game>)
    ensures forall k :: k in r <==> k in m && k !in t
    ensures forall k :: k in r ==> r[k] == m[k]
  {
    map k | k in m && k !in t :: m[k]
  }

  /** games:reorder as the code runs it: an argument that is not an array
      is refused; otherwise the Map is built, the listed games are moved to
      the front, and the Map's remaining values are appended at the end. */
  method ReorderGames(games: seq<Game>, input: OrderInput) returns (r: ReorderResult)
    ensures input.NotArray? ==> r == InvalidOrder
    ensures input.IdArray? ==> r == Reordered(ReorderSpec(games, input.ids))
  {
    if input.NotArray? {
      return InvalidOrder;
    }
    var orderedIds := input.ids;
    var reordered, keys, idToGame := MoveListed(orderedIds, MapKeys(games), MapValues(games));
    ReorderFinish(games, orderedIds, Taken(orderedIds, MapValues(games).Keys), keys, idToGame);
    return Reordered(reordered + Lookup(keys, idToGame));
  }

  /** The loop of games:reorder over the Map with key order `allKeys` and
      table `values`: each listed id that is still a key moves its game to
      the front list and is deleted from the Map. */
  method MoveListed(orderedIds: seq<int>, allKeys: seq<int>, values: map<int, Game>)
    returns (reordered: seq<Game>, keys: seq<int>, idToGame: map<int, Game>)
    ensures var t := Taken(orderedIds, values.Keys);
      reordered == Lookup(t, values) && keys == Without(allKeys, t) && idToGame == Remaining(values, t)
  {
    keys := allKeys;
    idToGame := values;
    reordered := [];
    for j := 0 to |orderedIds|
      invariant (reordered, keys, idToGame) == Moving(orderedIds[..j], allKeys, values)
    {
      var id := orderedIds[j];
      assert orderedIds[..j + 1][..j] == orderedIds[..j];
      if id in idToGame {
        reordered := reordered + [idToGame[id]];
        idToGame := idToGame - {id};
        keys := RemoveKey(keys, id);
      }
    }
    assert orderedIds[..|orderedIds|] == orderedIds;
    MovingTakes(orderedIds, allKeys, values);
  }

  /** The front list, key order and table after the loop of `MoveListed`
      has looked at `ids`, one id at a time. */
  function Moving(ids: seq<int>, allKeys: seq<int>, values: map<int, Game>): (r: (seq<Game>, seq<int>, map<int, Game>))
    ensures |r.0| <= |ids|
    ensures r.2.Keys <= values.Keys && forall k :: k in r.2 ==> r.2[k] == values[k]
    decreases |ids|
  {
    if ids == [] then ([], allKeys, values)
    else
      var (reordered, keys, idToGame) := Moving(ids[..|ids| - 1], allKeys, values);
      var id := ids[|ids| - 1];
      if id in idToGame then (reordered + [idToGame[id]], RemoveKey(keys, id), idToGame - {id})
      else (reordered, keys, idToGame)
  }

  /** The loop, looked at as a whole: the taken ids' games are in front, and
      exactly the taken ids are gone from the key order and the table. */
  lemma {:induction false} MovingTakes(ids: seq<int>, allKeys: seq<int>, values: map<int, Game>)
    ensures var t := Taken(ids, values.Keys);
      Moving(ids, allKeys, values) == (Lookup(t, values), Without(allKeys, t), Remaining(values, t))
    decreases |ids|
  {
    if ids == [] {
      WithoutNothing(allKeys);
      assert values == Remaining(values, []);
    } else {
      var prefix := ids[..|ids| - 1];
      var id := ids[|ids| - 1];
      MovingTakes(prefix, allKeys, values);
      var t := Taken(prefix, values.Keys);
      if id in values && id !in t {
        assert Taken(ids, values.Keys) == t + [id];
        TakeStep(allKeys, values, t, id);
      } else {
        assert Taken(ids, values.Keys) == t;
      }
    }
  }

  /** After the loop: the front list and the Map's remaining values in key
      order make up `ReorderSpec`. */
  lemma {:induction false} ReorderFinish(games: seq<Game>, ids: seq<int>, taken: seq<int>,
    keys: seq<int>, idToGame: map<int, Game>)
    requires taken == Taken(ids, MapValues(games).Keys)
    requires keys == Without(MapKeys(games), taken)
    requires idToGame == Remaining(MapValues(games), taken)
    ensures forall k :: k in keys ==> k in idToGame
    ensures Lookup(taken, MapValues(games)) + Lookup(keys, idToGame) == ReorderSpec(games, ids)
  {
    LookupAgree(keys, idToGame, MapValues(games));
  }

  /** One id moved: the state after it, in terms of the taken ids. */
  lemma {:induction false} TakeStep(keys: seq<int>, values: map<int, Game>, t: seq<int>, x: int)
    requires x in values && x !in t
    requires forall k :: k in t ==> k in values
    ensures Without(keys, t + [x]) == RemoveKey(Without(keys, t), x)
    ensures Remaining(values, t + [x]) == Remaining(values, t) - {x}
    ensures Lookup(t + [x], values) == Lookup(t, values) + [Remaining(values, t)[x]]
  {
    WithoutSnoc(keys, t, x);
    LookupSnoc(t, x, values);
    RemainingSnoc(values, t, x);
  }

  /** Deleting one more key from the table. */
  lemma {:induction false} RemainingSnoc(values: map<int, Game>, t: seq<int>, x: int)
    ensures Remaining(values, t + [x]) == Remaining(values, t) - {x}
  {
    assert forall k :: k in t + [x] <==> k in t || k == x;
  }

  // ---------------------------------------------------------------------
  // Helpers about the key sequences
  // ---------------------------------------------------------------------

  lemma {:induction false} LookupSnoc(ks: seq<int>, x: int, m: map<int, Game>)
    requires forall k :: k in ks ==> k in m
    requires x in m
    ensures Lookup(ks + [x], m) == Lookup(ks, m) + [m[x]]
  {
    assert (ks + [x])[..|ks|] == ks;
  }

  /** Lookups in two tables that agree on the keys looked up are equal. */
  lemma {:induction false} LookupAgree(ks: seq<int>, m1: map<int, Game>, m2: map<int, Game>)
    requires forall k :: k in ks ==> k in m1 && k in m2 && m1[k] == m2[k]
    ensures Lookup(ks, m1) == Lookup(ks, m2)
  {
    var l1 := Lookup(ks, m1);
    var l2 := Lookup(ks, m2);
    forall a | 0 <= a < |ks| ensures l1[a] == l2[a] {
      var k := ks[a];
      assert k in ks;
      assert m1[k] == m2[k];
      assert l1[a] == m1[k];
      assert l2[a] == m2[k];
    }
  }

  /** Taking one more key is deleting it from what remains. */
  lemma {:induction false} WithoutSnoc(ks: seq<int>, t: seq<int>, x: int)
    ensures Without(ks, t + [x]) == RemoveKey(Without(ks, t), x)
    decreases |ks|
  {
    if ks != [] {
      var prefix := ks[..|ks| - 1];
      var k := ks[|ks| - 1];
      WithoutSnoc(prefix, t, x);
      var w := Without(prefix, t);
      if k !in t {
        assert (w + [k])[..|w|] == w;
      }
    }
  }

  /** Deleting a key that is not there changes nothing. */
  lemma {:induction false} RemoveKeyAbsent(ks: seq<int>, x: int)
    requires x !in ks
    ensures RemoveKey(ks, x) == ks
    decreases |ks|
  {
    if ks != [] {
      RemoveKeyAbsent(ks[..|ks| - 1], x);
      assert ks[..|ks| - 1] + [ks[|ks| - 1]] == ks;
    }
  }

  /** Deleting a key moves exactly its value out of the lookup. */
  lemma {:induction false} LookupRemove(ks: seq<int>, x: int, m: map<int, Game>)
    requires Distinct(ks) && x in ks
    requires forall k :: k in ks ==> k in m
    ensures multiset(Lookup(ks, m)) == multiset(Lookup(RemoveKey(ks, x), m)) + multiset{m[x]}
    decreases |ks|
  {
    var prefix := ks[..|ks| - 1];
    var k := ks[|ks| - 1];
    assert ks == prefix + [k];
    DistinctUnsnoc(ks);
    assert forall q :: q in prefix ==> q in m;
    var whole := Lookup(prefix, m);
    assert Lookup(ks, m) == whole + [m[k]] by {
      LookupSnoc(prefix, k, m);
    }
    if k == x {
      assert x !in prefix;
      assert RemoveKey(ks, x) == prefix by {
        RemoveKeyAbsent(prefix, x);
      }
    } else {
      var rest := RemoveKey(prefix, x);
      var others := Lookup(rest, m);
      assert multiset(whole) == multiset(others) + multiset{m[x]} by {
        LookupRemove(prefix, x, m);
      }
      assert RemoveKey(ks, x) == rest + [k];
      assert Lookup(rest + [k], m) == others + [m[k]] by {
        LookupSnoc(rest, k, m);
      }
      AppendKeepsExtra(whole, others, m[x], m[k]);
    }
  }

  /** Appending the same game to two lists keeps the one game by which
      their contents differ. */
  lemma AppendKeepsExtra(a: seq<Game>, b: seq<Game>, extra: Game, g: Game)
    requires multiset(a) == multiset(b) + multiset{extra}
    ensures multiset(a + [g]) == multiset(b + [g]) + multiset{extra}
  {
  }

  // ---------------------------------------------------------------------
  // What the reorder promises
  // ---------------------------------------------------------------------

  /** The loop moves games from the Map to the front and loses none: what
      is taken and what remains together are the Map's values. */
  lemma {:induction false} TakenMoves(keys: seq<int>, values: map<int, Game>, ids: seq<int>)
    requires Distinct(keys) && forall k :: k in keys <==> k in values
    ensures multiset(Lookup(Taken(ids, values.Keys), values))
      + multiset(Lookup(Without(keys, Taken(ids, values.Keys)), values))
      == multiset(Lookup(keys, values))
    decreases |ids|
  {
    if ids == [] {
      WithoutNothing(keys);
    } else {
      var prefix := ids[..|ids| - 1];
      var x := ids[|ids| - 1];
      TakenMoves(keys, values, prefix);
      var t := Taken(prefix, values.Keys);
      if x in values && x !in t {
        assert Taken(ids, values.Keys) == t + [x];
        var w := Without(keys, t);
        WithoutDistinct(keys, t);
        TakeStep(keys, values, t, x);
        MoveOne(t, w, x, values);
      } else {
        assert Taken(ids, values.Keys) == t;
      }
    }
  }

  /** Moving key `x` from the remaining keys `w` to the taken keys `t`
      keeps the values of both together. */
  lemma {:induction false} MoveOne(t: seq<int>, w: seq<int>, x: int, values: map<int, Game>)
    requires Distinct(w) && x in w
    requires forall q :: q in w ==> q in values
    requires forall q :: q in t ==> q in values
    ensures multiset(Lookup(t + [x], values)) + multiset(Lookup(RemoveKey(w, x), values))
      == multiset(Lookup(t, values)) + multiset(Lookup(w, values))
  {
    LookupRemove(w, x, values);
    LookupSnoc(t, x, values);
    var front := Lookup(t, values);
    assert multiset(front + [values[x]]) == multiset(front) + multiset{values[x]};
  }

  lemma {:induction false} WithoutNothing(ks: seq<int>)
    ensures Without(ks, []) == ks
    decreases |ks|
  {
    if ks != [] {
      WithoutNothing(ks[..|ks| - 1]);
      assert ks[..|ks| - 1] + [ks[|ks| - 1]] == ks;
    }
  }

  /** With unique ids the Map holds every game, in stored order. */
  lemma {:induction false} MapOfUnique(games: seq<Game>)
    requires UniqueIds(games)
    ensures Lookup(MapKeys(games), MapValues(games)) == games
    decreases |games|
  {
    if games != [] {
      var prefix := games[..|games| - 1];
      var g := games[|games| - 1];
      assert prefix + [g] == games;
      LastIdNew(games);
      MapOfUnique(prefix);
      MapSnocNew(prefix, g);
    }
  }

  /** A game with a new id is added at the end of the Map. */
  lemma {:induction false} MapSnocNew(prefix: seq<Game>, g: Game)
    requires g.id !in MapValues(prefix)
    ensures Lookup(MapKeys(prefix + [g]), MapValues(prefix + [g])) == Lookup(MapKeys(prefix), MapValues(prefix)) + [g]
  {
    var games := prefix + [g];
    var v := MapValues(prefix);
    var keys := MapKeys(prefix);
    var all := MapValues(games);
    assert all == v[g.id := g] && MapKeys(games) == keys + [g.id] by {
      assert games[..|games| - 1] == prefix;
    }
    assert Lookup(keys, all) == Lookup(keys, v) by {
      forall k | k in keys ensures k in all && k in v && all[k] == v[k] {
        assert k in v;
      }
      LookupAgree(keys, all, v);
    }
    assert Lookup(keys + [g.id], all) == Lookup(keys, all) + [g] by {
      forall k | k in keys ensures k in all {
        assert k in v;
      }
      LookupSnoc(keys, g.id, all);
    }
  }

  /** With unique ids, the last game's id is not among the earlier ones. */
  lemma {:induction false} LastIdNew(games: seq<Game>)
    requires games != [] && UniqueIds(games)
    ensures UniqueIds(games[..|games| - 1])
    ensures games[|games| - 1].id !in MapValues(games[..|games| - 1])
  {
    var prefix := games[..|games| - 1];
    assert forall i :: 0 <= i < |prefix| ==> prefix[i] == games[i];
    MapValuesFrom(prefix);
    assert games[|games| - 1].id !in MapValues(prefix);
  }

  /** With a single key available, the loop takes that key or nothing. */
  lemma {:induction false} TakenOneKey(ids: seq<int>, k: int)
    ensures Taken(ids, {k}) == [] || Taken(ids, {k}) == [k]
    decreases |ids|
  {
    if ids != [] {
      TakenOneKey(ids[..|ids| - 1], k);
    }
  }

  /** The Map built from two games with one id holds the later game under
      that id. */
  lemma {:induction false} MapOfSharedId(a: Game, b: Game)
    requires a.id == b.id
    ensures MapValues([a, b]) == map[a.id := b] && MapKeys([a, b]) == [a.id]
  {
    var games := [a, b];
    var m := MapValues(games);
    assert games[..1] == [a] && [a][..0] == [];
    assert MapValues([a]) == MapValues([])[a.id := a] == map[a.id := a];
    assert m == MapValues([a])[b.id := b];
    assert MapKeys([a]) == MapKeys([]) + [a.id] == [a.id];
    assert MapKeys(games) == MapKeys([a]);
  }

  /** Two stored games with the same id come out as one: the Map keeps only
      the later game, whatever ids are listed, so the list written is one
      game shorter. */
  lemma {:induction false} ReorderSharedId(a: Game, b: Game, ids: seq<int>)
    requires a.id == b.id
    ensures ReorderSpec([a, b], ids) == [b]
  {
    var m := MapValues([a, b]);
    MapOfSharedId(a, b);
    var t := Taken(ids, m.Keys);
    assert t == [] || t == [a.id] by {
      assert m.Keys == {a.id};
      TakenOneKey(ids, a.id);
    }
    assert Lookup([a.id], m) == [b] by {
      var one := Lookup([a.id], m);
      assert |one| == 1 && one[0] == m[a.id];
    }
    if t == [] {
      assert Without([a.id], t) == [a.id];
    } else {
      assert Without([a.id], t) == [];
    }
  }

  /** games:reorder loses and duplicates no game: when ids are unique the
      list written is a permutation of the stored list. */
  lemma {:induction false} ReorderPermutes(games: seq<Game>, ids: seq<int>)
    requires UniqueIds(games)
    ensures multiset(ReorderSpec(games, ids)) == multiset(games)
  {
    MapKeysDistinct(games);
    TakenMoves(MapKeys(games), MapValues(games), ids);
    MapOfUnique(games);
  }

  /** The first place an id occurs in a list. */
  function IndexOf(s: seq<int>, x: int): (r: nat)
    requires x in s
    ensures r < |s| && s[r] == x
    ensures forall j :: 0 <= j < r ==> s[j] != x
  {
    if s[0] == x then 0 else 1 + IndexOf(s[1..], x)
  }

  /** Appending to a list does not move the first place of an id already
      in it; a new id is found at the end. */
  lemma {:induction false} IndexOfSnoc(s: seq<int>, x: int, y: int)
    requires y in s + [x]
    ensures y in s ==> IndexOf(s + [x], y) == IndexOf(s, y)
    ensures y !in s ==> IndexOf(s + [x], y) == |s|
  {
    var r := IndexOf(s + [x], y);
    if y in s {
      var r0 := IndexOf(s, y);
      assert (s + [x])[r0] == y;
      assert r <= r0;
      assert r < |s| ==> s[r] == (s + [x])[r];
    } else {
      assert forall j :: 0 <= j < |s| ==> (s + [x])[j] == s[j];
    }
  }

  /** Ids are taken in the order they are first listed. */
  lemma {:induction false} TakenInListedOrder(ids: seq<int>, avail: set<int>)
    ensures forall a, b :: 0 <= a < b < |Taken(ids, avail)| ==>
      IndexOf(ids, Taken(ids, avail)[a]) < IndexOf(ids, Taken(ids, avail)[b])
    decreases |ids|
  {
    if ids != [] {
      var prefix := ids[..|ids| - 1];
      var x := ids[|ids| - 1];
      assert ids == prefix + [x];
      TakenInListedOrder(prefix, avail);
      var t := Taken(prefix, avail);
      var t' := Taken(ids, avail);
      forall a, b | 0 <= a < b < |t'| ensures IndexOf(ids, t'[a]) < IndexOf(ids, t'[b]) {
        assert t'[a] == t[a] && t[a] in t;
        IndexOfSnoc(prefix, x, t[a]);
        if b < |t| {
          assert t'[b] == t[b] && t[b] in t;
          IndexOfSnoc(prefix, x, t[b]);
        } else {
          assert t'[b] == x && x !in prefix;
          IndexOfSnoc(prefix, x, x);
        }
      }
    }
  }

  /** The games named by the ids come first: one per named id that is a
      stored id, in the order the ids are listed, each a stored game with
      that id. */
  lemma {:induction false} ReorderListedFirst(games: seq<Game>, ids: seq<int>)
    ensures var t := Taken(ids, MapValues(games).Keys);
      var r := ReorderSpec(games, ids);
      |t| <= |r| && forall a :: 0 <= a < |t| ==> r[a] in games && r[a].id == t[a]
  {
    var values := MapValues(games);
    var t := Taken(ids, values.Keys);
    var r := ReorderSpec(games, ids);
    MapValuesFrom(games);
    forall a | 0 <= a < |t| ensures r[a] in games && r[a].id == t[a] {
      assert r[a] == Lookup(t, values)[a] == values[t[a]];
    }
  }

  /** The stored games whose id is not in `t`, in stored order. */
  function Unlisted(games: seq<Game>, t: seq<int>): (r: seq<Game>)
    ensures forall g :: g in r <==> g in games && g.id !in t
    decreases |games|
  {
    if games == [] then []
    else
      var prefix := games[..|games| - 1];
      var g := games[|games| - 1];
      assert forall h :: h in games <==> h in prefix || h == g;
      if g.id in t then Unlisted(prefix, t) else Unlisted(prefix, t) + [g]
  }

  /** With unique ids, the games not named follow in their stored order. */
  lemma {:induction false} ReorderRestInOrder(games: seq<Game>, ids: seq<int>)
    requires UniqueIds(games)
    ensures var t := Taken(ids, MapValues(games).Keys);
      ReorderSpec(games, ids)[|t|..] == Unlisted(games, t)
  {
    var values := MapValues(games);
    var t := Taken(ids, values.Keys);
    RemainingInOrder(games, t);
    var front := Lookup(t, values);
    var rest := Lookup(Without(MapKeys(games), t), values);
    assert ReorderSpec(games, ids) == front + rest;
    assert (front + rest)[|front|..] == rest;
  }

  /** The Map's values under the keys not in `t` are, with unique ids, the
      stored games not in `t`. */
  lemma {:induction false} RemainingInOrder(games: seq<Game>, t: seq<int>)
    requires UniqueIds(games)
    ensures Lookup(Without(MapKeys(games), t), MapValues(games)) == Unlisted(games, t)
    decreases |games|
  {
    if games != [] {
      var prefix := games[..|games| - 1];
      var g := games[|games| - 1];
      LastIdNew(games);
      RemainingInOrder(prefix, t);
      var v := MapValues(prefix);
      var keys := MapKeys(prefix);
      assert MapKeys(games) == keys + [g.id];
      var w := Without(keys, t);
      assert (keys + [g.id])[..|keys|] == keys;
      LookupAgree(w, MapValues(games), v);
      if g.id !in t {
        LookupSnoc(w, g.id, MapValues(games));
      }
    }
  }
}
