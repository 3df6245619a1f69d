/** `RepositorioAbstrato<T>`: the generic operations over one keyed table.
    A table is its rows in storage order plus the next value of its key
    generator. The entity-specific hooks of the source (primary-key column,
    insert/update parameter binding, row mapping) are function parameters:
    `key` reads a row's primary key, `bindInsert` builds the inserted row from
    the entity and the generated key, `mapRow` is `MapFromReader`. */
module RepositorioAbstrato {
  import opened Wrappers
  import Seqs

  datatype Table<R> = Table(rows: seq<R>, nextKey: int)

  /** Keys are unique and below the generator's next value. */
  predicate Valid<R>(t: Table<R>, key: R -> int) {
    && (forall i | 0 <= i < |t.rows| :: key(t.rows[i]) < t.nextKey)
    && (forall i, j | 0 <= i < j < |t.rows| :: key(t.rows[i]) != key(t.rows[j]))
  }

  function KeyIs<R>(key: R -> int, id: int): R -> bool {
    r => key(r) == id
  }

  function KeyIsNot<R>(key: R -> int, id: int): R -> bool {
    r => key(r) != id
  }

  /** `Add`: one INSERT; the generated key is not read back. */
  function Add<E, R>(t: Table<R>, e: E, bindInsert: (E, int) -> R): (t': Table<R>)
    ensures |t'.rows| == |t.rows| + 1 && t'.rows[..|t.rows|] == t.rows
    ensures t'.nextKey > t.nextKey
  {
    Table(t.rows + [bindInsert(e, t.nextKey)], t.nextKey + 1)
  }

  /** `Remove`: DELETE WHERE key = id. */
  function Remove<R(==)>(t: Table<R>, id: int, key: R -> int): (t': Table<R>)
    ensures forall i | 0 <= i < |t'.rows| :: key(t'.rows[i]) != id
    ensures forall i | 0 <= i < |t.rows| && key(t.rows[i]) != id :: t.rows[i] in t'.rows
    ensures forall i | 0 <= i < |t'.rows| :: t'.rows[i] in t.rows
  {
    Seqs.FilterMembers(t.rows, KeyIsNot(key, id));
    Table(Seqs.Filter(t.rows, KeyIsNot(key, id)), t.nextKey)
  }

  /** `Update`: UPDATE ... WHERE key = key(row), rewriting every matching row. */
  function Update<R>(t: Table<R>, row: R, key: R -> int): (t': Table<R>)
    ensures |t'.rows| == |t.rows| && t'.nextKey == t.nextKey
    ensures forall i | 0 <= i < |t.rows| :: t'.rows[i] == (if key(t.rows[i]) == key(row) then row else t.rows[i])
  {
    Table(seq(|t.rows|, i requires 0 <= i < |t.rows| => if key(t.rows[i]) == key(row) then row else t.rows[i]), t.nextKey)
  }

  /** `GetAll`: every row mapped to an entity, in storage order. */
  function GetAll<R, E>(t: Table<R>, mapRow: R -> E): (es: seq<E>)
    ensures |es| == |t.rows|
    ensures forall i | 0 <= i < |t.rows| :: es[i] == mapRow(t.rows[i])
  {
    seq(|t.rows|, i requires 0 <= i < |t.rows| => mapRow(t.rows[i]))
  }

  /** `Get(predicate)`: `GetAll` filtered in memory. */
  function Get<R, E(==)>(t: Table<R>, mapRow: R -> E, p: E -> bool): (es: seq<E>)
    ensures forall i | 0 <= i < |es| :: p(es[i]) && es[i] in GetAll(t, mapRow)
    ensures forall i | 0 <= i < |t.rows| && p(mapRow(t.rows[i])) :: mapRow(t.rows[i]) in es
  {
    var all := GetAll(t, mapRow);
    var es := Seqs.Filter(all, p);
    Seqs.FilterMembers(all, p);
    assert forall i | 0 <= i < |t.rows| :: all[i] == mapRow(t.rows[i]);
    es
  }

  /** `Get` keeps storage order and multiplicity: rows stored in two runs
      are selected run by run, and one row yields its entity once exactly
      when the predicate holds of it. */
  lemma GetInOrder<R, E>(a: seq<R>, b: seq<R>, n: int, mapRow: R -> E, p: E -> bool, row: R)
    ensures Get(Table(a + b, n), mapRow, p) == Get(Table(a, n), mapRow, p) + Get(Table(b, n), mapRow, p)
    ensures Get(Table([row], n), mapRow, p) == if p(mapRow(row)) then [mapRow(row)] else []
  {
    var ga, gb := GetAll(Table(a, n), mapRow), GetAll(Table(b, n), mapRow);
    assert GetAll(Table(a + b, n), mapRow) == ga + gb;
    Seqs.FilterConcat(ga, gb, p);
    assert GetAll(Table([row], n), mapRow) == [mapRow(row)];
  }

  /** `GetById`: the row with key `id`, or null. */
  function GetById<R(==), E>(t: Table<R>, id: int, key: R -> int, mapRow: R -> E): (r: Option<E>)
    ensures r.Some? <==> exists i | 0 <= i < |t.rows| :: key(t.rows[i]) == id
    ensures r.Some? ==> exists i | 0 <= i < |t.rows| :: key(t.rows[i]) == id && r.value == mapRow(t.rows[i])
  {
    match Seqs.FirstWhere(t.rows, KeyIs(key, id))
    case Some(row) => Some(mapRow(row))
    case None => None
  }

  /** `Exists`: SELECT 1 WHERE key = id found a row. */
  predicate Exists<R>(t: Table<R>, id: int, key: R -> int) {
    exists i | 0 <= i < |t.rows| :: key(t.rows[i]) == id
  }

  /** `Count`: SELECT COUNT(*). */
  function Count<R>(t: Table<R>): nat {
    |t.rows|
  }

  /** `Exists(id)` holds exactly when `GetById(id)` is non-null, and `Count`
      is the length of `GetAll`. */
  lemma QueriesAgree<R, E>(t: Table<R>, id: int, key: R -> int, mapRow: R -> E)
    ensures Exists(t, id, key) <==> GetById(t, id, key, mapRow).Some?
    ensures Count(t) == |GetAll(t, mapRow)|
  {
  }

  /** With unique keys, `GetById` returns the row holding the key. */
  lemma GetByIdUnique<R, E>(t: Table<R>, k: nat, key: R -> int, mapRow: R -> E)
    requires Valid(t, key) && k < |t.rows|
    ensures GetById(t, key(t.rows[k]), key, mapRow) == Some(mapRow(t.rows[k]))
  {
    Seqs.FirstWhereUnique(t.rows, KeyIs(key, key(t.rows[k])), k);
  }

  /** `Add` keeps keys unique when the bound row carries the generated key;
      that key is fresh, the count grows by one, and `GetById` of the new key
      returns the added entity (round trip, modulo the generated key). */
  lemma AddSpec<E, R, X>(t: Table<R>, e: E, bindInsert: (E, int) -> R, key: R -> int, mapRow: R -> X)
    requires Valid(t, key) && key(bindInsert(e, t.nextKey)) == t.nextKey
    ensures Valid(Add(t, e, bindInsert), key)
    ensures !Exists(t, t.nextKey, key)
    ensures Count(Add(t, e, bindInsert)) == Count(t) + 1
    ensures GetById(Add(t, e, bindInsert), t.nextKey, key, mapRow) == Some(mapRow(bindInsert(e, t.nextKey)))
  {
    var t' := Add(t, e, bindInsert);
    assert t'.rows[|t.rows|] == bindInsert(e, t.nextKey);
    GetByIdUnique(t', |t.rows|, key, mapRow);
  }

  /** `Add` changes no existing row: every other key reads as before. */
  lemma AddKeepsOthers<E, R, X>(t: Table<R>, e: E, bindInsert: (E, int) -> R, key: R -> int, mapRow: R -> X, id: int)
    requires Valid(t, key) && key(bindInsert(e, t.nextKey)) == t.nextKey && id != t.nextKey
    ensures GetById(Add(t, e, bindInsert), id, key, mapRow) == GetById(t, id, key, mapRow)
  {
    var t' := Add(t, e, bindInsert);
    AddSpec(t, e, bindInsert, key, mapRow);
    if Exists(t, id, key) {
      var k :| 0 <= k < |t.rows| && key(t.rows[k]) == id;
      GetByIdUnique(t, k, key, mapRow);
      assert t'.rows[k] == t.rows[k];
      GetByIdUnique(t', k, key, mapRow);
    } else {
      assert !Exists(t', id, key) by {
        forall i | 0 <= i < |t'.rows| ensures key(t'.rows[i]) != id {
          if i < |t.rows| { assert t'.rows[i] == t.rows[i]; }
        }
      }
    }
  }

  /** Removing an absent key changes nothing. */
  lemma RemoveAbsent<R>(t: Table<R>, id: int, key: R -> int)
    requires !Exists(t, id, key)
    ensures Remove(t, id, key) == t
  {
    Seqs.FilterAll(t.rows, KeyIsNot(key, id));
  }

  /** `Remove` deletes exactly the row with key `id`: with unique keys and the
      key present, that one row goes and the others stay in order. */
  lemma RemoveSpec<R>(t: Table<R>, k: nat, key: R -> int)
    requires Valid(t, key) && k < |t.rows|
    ensures Remove(t, key(t.rows[k]), key).rows == t.rows[..k] + t.rows[k + 1..]
    ensures Count(Remove(t, key(t.rows[k]), key)) == Count(t) - 1
  {
    Seqs.FilterDropsOne(t.rows, k, KeyIsNot(key, key(t.rows[k])));
  }

  /** The index in the original rows of position `i` once row `k` is gone. */
  function Skip(i: nat, k: nat): nat {
    if i < k then i else i + 1
  }

  /** Removing keeps the keys unique. */
  lemma RemoveKeepsValid<R>(t: Table<R>, id: int, key: R -> int)
    requires Valid(t, key)
    ensures Valid(Remove(t, id, key), key)
  {
    if k :| 0 <= k < |t.rows| && key(t.rows[k]) == id {
      RemoveSpec(t, k, key);
      var r := Remove(t, id, key).rows;
      assert forall i | 0 <= i < |r| :: r[i] == t.rows[Skip(i, k)];
      forall i, j | 0 <= i < j < |r| ensures key(r[i]) != key(r[j]) {
        assert Skip(i, k) < Skip(j, k);
      }
    } else {
      RemoveAbsent(t, id, key);
    }
  }

  /** Updating an absent key changes nothing. */
  lemma UpdateAbsent<R>(t: Table<R>, row: R, key: R -> int)
    requires !Exists(t, key(row), key)
    ensures Update(t, row, key) == t
  {
  }

  /** `Update` keeps every key, so keys stay unique, and afterwards the key
      reads back as the new row. */
  lemma UpdateSpec<R, E>(t: Table<R>, row: R, key: R -> int, mapRow: R -> E)
    requires Valid(t, key) && Exists(t, key(row), key)
    ensures Valid(Update(t, row, key), key)
    ensures Count(Update(t, row, key)) == Count(t)
    ensures GetById(Update(t, row, key), key(row), key, mapRow) == Some(mapRow(row))
  {
    var t' := Update(t, row, key);
    UpdateKeepsKeys(t, row, key);
    assert Valid(t', key);
    var k :| 0 <= k < |t.rows| && key(t.rows[k]) == key(row);
    assert t'.rows[k] == row;
    GetByIdUnique(t', k, key, mapRow);
  }

  /** `Update` keeps the key at every position. */
  lemma UpdateKeepsKeys<R>(t: Table<R>, row: R, key: R -> int)
    ensures forall i | 0 <= i < |t.rows| :: key(Update(t, row, key).rows[i]) == key(t.rows[i])
  {
  }

  /** `Update` leaves every other key reading as before. */
  lemma UpdateKeepsOthers<R, E>(t: Table<R>, row: R, key: R -> int, mapRow: R -> E, id: int)
    requires id != key(row)
    ensures GetById(Update(t, row, key), id, key, mapRow) == GetById(t, id, key, mapRow)
  {
    Seqs.FirstWhereAgree(Update(t, row, key).rows, t.rows, KeyIs(key, id));
  }

  /** `Remove` leaves every other key reading as before. */
  lemma RemoveKeepsOthers<R, E>(t: Table<R>, id: int, key: R -> int, mapRow: R -> E, other: int)
    requires Valid(t, key) && other != id
    ensures GetById(Remove(t, id, key), other, key, mapRow) == GetById(t, other, key, mapRow)
  {
    var t' := Remove(t, id, key);
    RemoveKeepsValid(t, id, key);
    if k :| 0 <= k < |t.rows| && key(t.rows[k]) == other {
      GetByIdUnique(t, k, key, mapRow);
      assert t.rows[k] in t'.rows;
      var k' :| 0 <= k' < |t'.rows| && t'.rows[k'] == t.rows[k];
      GetByIdUnique(t', k', key, mapRow);
    } else {
      forall i | 0 <= i < |t'.rows| ensures key(t'.rows[i]) != other {
        assert t'.rows[i] in t.rows;
      }
    }
  }
}
