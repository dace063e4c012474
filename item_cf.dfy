/**
 * The ItemCF statistics of `_generate_item_similarity`: over a user -> items
 * dictionary, N[i] counts the users who have item i and C[i][j] counts the
 * users who have both i and j (i != j). Keys are created only when first
 * incremented (`setdefault`), so C[i] exists only for items that co-occur
 * with some other item.
 */
module ItemCF {
  import opened Sets
  import opened TrainData

  /** The users among `users` whose item set holds i: the value N[i] is meant to have. */
  function Occurrences(train: TrainDict, users: set<string>, i: string): nat
    requires users <= train.Keys
  {
    |set u | u in users && i in train[u]|
  }

  /** The users among `users` whose item set holds both i and j: the value C[i][j] is meant to have. */
  function CoOccurrences(train: TrainDict, users: set<string>, i: string, j: string): nat
    requires users <= train.Keys
  {
    |set u | u in users && i in train[u] && j in train[u]|
  }

  function Get(m: map<string, nat>, k: string): nat
  {
    if k in m then m[k] else 0
  }

  function Get2(c: map<string, map<string, nat>>, i: string, j: string): nat
  {
    if i in c && j in c[i] then c[i][j] else 0
  }

  predicate Has2(c: map<string, map<string, nat>>, i: string, j: string)
  {
    i in c && j in c[i]
  }

  /** N holds exactly the item counts over `users`, with a key only for items that occur. */
  ghost predicate ItemCountsOver(train: TrainDict, users: set<string>, n: map<string, nat>)
    requires users <= train.Keys
  {
    && (forall i :: i in n <==> Occurrences(train, users, i) > 0)
    && (forall i :: i in n ==> n[i] == Occurrences(train, users, i))
  }

  /** C holds exactly the pair counts over `users`, with keys only for pairs of distinct items that co-occur. */
  ghost predicate PairCountsOver(train: TrainDict, users: set<string>, c: map<string, map<string, nat>>)
    requires users <= train.Keys
  {
    && (forall i, j :: Has2(c, i, j) <==> i != j && CoOccurrences(train, users, i, j) > 0)
    && (forall i, j :: Has2(c, i, j) ==> c[i][j] == CoOccurrences(train, users, i, j))
    && (forall i :: i in c ==> c[i] != map[])
  }

  ghost predicate CountsOver(train: TrainDict, users: set<string>, n: map<string, nat>, c: map<string, map<string, nat>>)
    requires users <= train.Keys
  {
    ItemCountsOver(train, users, n) && PairCountsOver(train, users, c)
  }

  /** N' is N with one more for every item in `items`. */
  ghost predicate ItemsAdded(n: map<string, nat>, n': map<string, nat>, items: set<string>)
  {
    && (forall x :: x in n' <==> x in n || x in items)
    && (forall x :: Get(n', x) == Get(n, x) + (if x in items then 1 else 0))
  }

  /** C' is C with one more for every pair of distinct items in `items`, and no empty row. */
  ghost predicate PairsAdded(c: map<string, map<string, nat>>, c': map<string, map<string, nat>>, items: set<string>)
  {
    && (forall x, y :: Has2(c', x, y) <==> Has2(c, x, y) || (x in items && y in items && x != y))
    && (forall x, y :: Get2(c', x, y) == Get2(c, x, y) + (if x in items && y in items && x != y then 1 else 0))
    && (forall x :: x in c' ==> c'[x] != map[])
  }

  /** Counting one more user's items keeps N exact. */
  lemma ItemCountsStep(train: TrainDict, done: set<string>, u: string, n0: map<string, nat>, n: map<string, nat>)
    requires done <= train.Keys && u in train && u !in done
    requires ItemCountsOver(train, done, n0)
    requires ItemsAdded(n0, n, train[u].Keys)
    ensures ItemCountsOver(train, done + {u}, n)
  {
    forall i
      ensures Occurrences(train, done + {u}, i) == Occurrences(train, done, i) + (if i in train[u] then 1 else 0)
    {
      AddUserOccurrences(train, done, u, i);
    }
  }

  /** Counting one more user's pairs keeps C exact. */
  lemma PairCountsStep(train: TrainDict, done: set<string>, u: string,
                       c0: map<string, map<string, nat>>, c: map<string, map<string, nat>>)
    requires done <= train.Keys && u in train && u !in done
    requires PairCountsOver(train, done, c0)
    requires PairsAdded(c0, c, train[u].Keys)
    ensures PairCountsOver(train, done + {u}, c)
  {
    var users := done + {u};
    forall i, j
      ensures Has2(c, i, j) <==> i != j && CoOccurrences(train, users, i, j) > 0
      ensures Has2(c, i, j) ==> c[i][j] == CoOccurrences(train, users, i, j)
    {
      AddUserCoOccurrences(train, done, u, i, j);
      PairStep(train, done, u, c0, c, i, j);
    }
  }

  /** PairCountsStep for one pair (i, j). */
  lemma PairStep(train: TrainDict, done: set<string>, u: string,
                 c0: map<string, map<string, nat>>, c: map<string, map<string, nat>>, i: string, j: string)
    requires done <= train.Keys && u in train && u !in done
    requires Has2(c0, i, j) <==> i != j && CoOccurrences(train, done, i, j) > 0
    requires Has2(c0, i, j) ==> c0[i][j] == CoOccurrences(train, done, i, j)
    requires Has2(c, i, j) <==> Has2(c0, i, j) || (i in train[u] && j in train[u] && i != j)
    requires Get2(c, i, j) == Get2(c0, i, j) + (if i in train[u] && j in train[u] && i != j then 1 else 0)
    requires CoOccurrences(train, done + {u}, i, j) ==
               CoOccurrences(train, done, i, j) + (if i in train[u] && j in train[u] then 1 else 0)
    ensures Has2(c, i, j) <==> i != j && CoOccurrences(train, done + {u}, i, j) > 0
    ensures Has2(c, i, j) ==> c[i][j] == CoOccurrences(train, done + {u}, i, j)
  {
    if Has2(c, i, j) {
      assert Get2(c, i, j) == c[i][j];
      if Has2(c0, i, j) {
        assert Get2(c0, i, j) == c0[i][j];
      }
    }
  }

  /** Adding a user who has item i adds one to the users counted for i. */
  lemma AddUserOccurrences(train: TrainDict, users: set<string>, u: string, i: string)
    requires users <= train.Keys && u in train && u !in users
    ensures Occurrences(train, users + {u}, i) == Occurrences(train, users, i) + (if i in train[u] then 1 else 0)
  {
    var a := set v | v in users && i in train[v];
    var a2 := set v | v in users + {u} && i in train[v];
    if i in train[u] {
      assert a2 == a + {u};
    } else {
      assert a2 == a;
    }
  }

  /** Adding a user who has both i and j adds one to the users counted for the pair. */
  lemma AddUserCoOccurrences(train: TrainDict, users: set<string>, u: string, i: string, j: string)
    requires users <= train.Keys && u in train && u !in users
    ensures CoOccurrences(train, users + {u}, i, j) ==
              CoOccurrences(train, users, i, j) + (if i in train[u] && j in train[u] then 1 else 0)
  {
    var b := set v | v in users && i in train[v] && j in train[v];
    var b2 := set v | v in users + {u} && i in train[v] && j in train[v];
    if i in train[u] && j in train[u] {
      assert b2 == b + {u};
    } else {
      assert b2 == b;
    }
  }

  lemma NoUserCounted(train: TrainDict, i: string, j: string)
    ensures Occurrences(train, {}, i) == 0 && CoOccurrences(train, {}, i, j) == 0
  {
  }

  /** Before any user is counted, both dictionaries are empty. */
  lemma CountsOverNoUsers(train: TrainDict)
    ensures CountsOver(train, {}, map[], map[])
  {
    forall i, j
      ensures Occurrences(train, {}, i) == 0 && CoOccurrences(train, {}, i, j) == 0
    {
      NoUserCounted(train, i, j);
    }
  }

  /** Counting one more user keeps both N and C exact. */
  lemma CountsStep(train: TrainDict, done: set<string>, u: string,
                   n0: map<string, nat>, c0: map<string, map<string, nat>>,
                   n: map<string, nat>, c: map<string, map<string, nat>>)
    requires done <= train.Keys && u in train && u !in done
    requires CountsOver(train, done, n0, c0)
    requires ItemsAdded(n0, n, train[u].Keys) && PairsAdded(c0, c, train[u].Keys)
    ensures CountsOver(train, done + {u}, n, c)
  {
    ItemCountsStep(train, done, u, n0, n);
    PairCountsStep(train, done, u, c0, c);
  }

  /** One more for C[i][j], creating the row and the entry when missing. */
  function Bump(c: map<string, map<string, nat>>, i: string, j: string): map<string, map<string, nat>>
  {
    c[i := (if i in c then c[i] else map[])[j := Get2(c, i, j) + 1]]
  }

  lemma BumpSpec(c: map<string, map<string, nat>>, i: string, j: string)
    requires forall x :: x in c ==> c[x] != map[]
    ensures forall x, y :: Has2(Bump(c, i, j), x, y) <==> Has2(c, x, y) || (x == i && y == j)
    ensures forall x, y :: Get2(Bump(c, i, j), x, y) == Get2(c, x, y) + (if x == i && y == j then 1 else 0)
    ensures forall x :: x in Bump(c, i, j) ==> Bump(c, i, j)[x] != map[]
  {
    var b := Bump(c, i, j);
    assert j in b[i];
  }

  /** The innermost loop: for the current item i, one more for C[i][j] for every other item j of the user. */
  method CountPairsOf(c: map<string, map<string, nat>>, i: string, items: set<string>)
    returns (c': map<string, map<string, nat>>)
    requires forall x :: x in c ==> c[x] != map[]
    ensures forall x, y :: Has2(c', x, y) <==> Has2(c, x, y) || (x == i && y in items && x != y)
    ensures forall x, y :: Get2(c', x, y) == Get2(c, x, y) + (if x == i && y in items && x != y then 1 else 0)
    ensures forall x :: x in c' ==> c'[x] != map[]
  {
    c' := c;
    var others := items;
    ghost var seen: set<string> := {};
    while others != {}
      invariant seen !! others && seen + others == items
      invariant forall x, y :: Has2(c', x, y) <==> Has2(c, x, y) || (x == i && y in seen && x != y)
      invariant forall x, y :: Get2(c', x, y) == Get2(c, x, y) + (if x == i && y in seen && x != y then 1 else 0)
      invariant forall x :: x in c' ==> c'[x] != map[]
      decreases others
    {
      var j :| j in others;
      if i != j {
        // C.setdefault(i, {}); C[i].setdefault(j, 0); C[i][j] += 1
        BumpSpec(c', i, j);
        c' := Bump(c', i, j);
      }
      others := others - {j};
      seen := seen + {j};
    }
  }

  /** The loops for one user: one more for N[i] for each item i, and for C[i][j] for each pair of distinct items. */
  method CountUser(n: map<string, nat>, c: map<string, map<string, nat>>, items: set<string>)
    returns (n': map<string, nat>, c': map<string, map<string, nat>>)
    requires forall x :: x in c ==> c[x] != map[]
    ensures ItemsAdded(n, n', items)
    ensures PairsAdded(c, c', items)
  {
    n', c' := n, c;
    var rest := items;
    ghost var seen: set<string> := {};
    while rest != {}
      invariant seen !! rest && seen + rest == items
      invariant forall x :: x in n' <==> x in n || x in seen
      invariant forall x :: Get(n', x) == Get(n, x) + (if x in seen then 1 else 0)
      invariant forall x, y :: Has2(c', x, y) <==> Has2(c, x, y) || (x in seen && y in items && x != y)
      invariant forall x, y :: Get2(c', x, y) == Get2(c, x, y) + (if x in seen && y in items && x != y then 1 else 0)
      invariant forall x :: x in c' ==> c'[x] != map[]
      decreases rest
    {
      var i :| i in rest;
      n' := n'[i := Get(n', i) + 1];
      c' := CountPairsOf(c', i, items);
      rest := rest - {i};
      seen := seen + {i};
    }
  }

  /**
   * The counting loops of the ItemCF branch, user by user. Dictionary
   * iteration order is left open: the counts do not depend on it.
   */
  method CountCoOccurrences(train: TrainDict) returns (n: map<string, nat>, c: map<string, map<string, nat>>)
    ensures CountsOver(train, train.Keys, n, c)
  {
    n, c := map[], map[];
    var done: set<string> := {};
    var users := train.Keys;
    CountsOverNoUsers(train);
    while users != {}
      invariant done !! users && done + users == train.Keys
      invariant CountsOver(train, done, n, c)
      decreases users
    {
      var u :| u in users;
      ghost var n0, c0 := n, c;
      n, c := CountUser(n, c, train[u].Keys);
      CountsStep(train, done, u, n0, c0, n, c);
      done := done + {u};
      users := users - {u};
    }
  }

  /** Each count charges at most the users in the dictionary, and a pair count never exceeds either item's count. */
  lemma CountBounds(train: TrainDict, i: string, j: string)
    ensures Occurrences(train, train.Keys, i) <= |train|
    ensures CoOccurrences(train, train.Keys, i, j) <= Occurrences(train, train.Keys, i)
    ensures CoOccurrences(train, train.Keys, i, j) <= Occurrences(train, train.Keys, j)
  {
    var all := train.Keys;
    var si := set u | u in all && i in train[u];
    var sj := set u | u in all && j in train[u];
    var sij := set u | u in all && i in train[u] && j in train[u];
    SubsetCard(si, all);
    SubsetCard(sij, si);
    SubsetCard(sij, sj);
  }

  /** The co-occurrence counts are symmetric: C[i][j] exists exactly when C[j][i] does, with the same count. */
  lemma CoOccurrenceSymmetric(train: TrainDict, users: set<string>, i: string, j: string)
    requires users <= train.Keys
    ensures CoOccurrences(train, users, i, j) == CoOccurrences(train, users, j, i)
  {
    assert (set u | u in users && i in train[u] && j in train[u]) ==
           (set u | u in users && j in train[u] && i in train[u]);
  }

  /** C has no diagonal entries, and it is symmetric. */
  lemma CountsShape(train: TrainDict, users: set<string>, n: map<string, nat>, c: map<string, map<string, nat>>,
                    i: string, j: string)
    requires users <= train.Keys && CountsOver(train, users, n, c)
    ensures !Has2(c, i, i)
    ensures Has2(c, i, j) <==> Has2(c, j, i)
    ensures Has2(c, i, j) ==> c[i][j] == c[j][i]
  {
    CoOccurrenceSymmetric(train, users, i, j);
  }
}
