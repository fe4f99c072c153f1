/** The `configs` table behind `ConfigsRepository`: rows keyed by their name, the
    two declared queries `findByName` and `findByMetaDataContains`, and the
    inherited `save`, `delete` and `findAll` that the service calls. */
module Repository {
  import opened Wrappers
  import opened Strings
  import opened Seqs
  import opened Json

  /** A row: the name (the `@Id` column) and the metadata object. Folds the
      entity `Config` and the transfer object `ConfigDTO`, which carry the same
      two values, the first as text and the second as a parsed map. */
  datatype Config = Config(name: string, metaData: seq<Member>)

  /** The text held in the metadata column. */
  function MetaDataText(c: Config): string {
    Serialize(JObject(c.metaData))
  }

  /** The rows in the order `findAll` and the queries return them. */
  type Table = seq<Config>

  /** The primary-key constraint: no two rows share a name. */
  predicate UniqueNames(t: Table) {
    forall i, j | 0 <= i < j < |t| :: t[i].name != t[j].name
  }

  /** Every row's metadata is a document the service can have been given. */
  predicate WellFormedRows(t: Table) {
    forall c | c in t :: WellFormed(JObject(c.metaData))
  }

  /** `findByName(n)`: the row named `n`, if there is one. */
  function FindByName(t: Table, n: string): (r: Option<Config>)
    ensures r.None? <==> forall i | 0 <= i < |t| :: t[i].name != n
    ensures r.Some? ==> r.value.name == n && r.value in t
  {
    if t == [] then None
    else if t[0].name == n then Some(t[0])
    else FindByName(t[1..], n)
  }

  /** Under the key constraint, looking up a row's name finds that row. */
  lemma {:induction false} FindByNameFindsRow(t: Table, i: nat)
    requires UniqueNames(t) && i < |t|
    ensures FindByName(t, t[i].name) == Some(t[i])
  {
    if i > 0 {
      FindByNameFindsRow(t[1..], i - 1);
    }
  }

  /** The keyed view of the table: each stored name mapped to its metadata. */
  function Store(t: Table): (m: map<string, seq<Member>>)
    requires UniqueNames(t)
    ensures forall n :: n in m <==> FindByName(t, n).Some?
    ensures forall n | n in m :: FindByName(t, n) == Some(Config(n, m[n]))
  {
    if t == [] then map[]
    else Store(t[1..])[t[0].name := t[0].metaData]
  }

  /** One key of the keyed view per row, so at most one row per name. */
  lemma {:induction false} StoreSize(t: Table)
    requires UniqueNames(t)
    ensures |Store(t)| == |t|
  {
    if t != [] {
      StoreSize(t[1..]);
      assert t[0].name !in Store(t[1..]);
      assert Store(t).Keys == Store(t[1..]).Keys + {t[0].name};
    }
  }

  /** The keyed view holds exactly the rows of the table. */
  lemma StoreRows(t: Table)
    requires UniqueNames(t)
    ensures forall c | c in t :: c.name in Store(t) && Store(t)[c.name] == c.metaData
    ensures forall n | n in Store(t) :: Config(n, Store(t)[n]) in t
  {
    forall c | c in t
      ensures c.name in Store(t) && Store(t)[c.name] == c.metaData
    {
      var i :| 0 <= i < |t| && t[i] == c;
      FindByNameFindsRow(t, i);
    }
  }

  /** `save(c)`: JPA merges an entity whose id is already set, so a row with the
      same name is overwritten in place; otherwise the row is appended. */
  function Save(t: Table, c: Config): (r: Table)
    ensures FindByName(t, c.name).Some? ==> |r| == |t|
    ensures FindByName(t, c.name).None? ==> r == t + [c]
  {
    if t == [] then [c]
    else if t[0].name == c.name then [c] + t[1..]
    else [t[0]] + Save(t[1..], c)
  }

  /** After a save, the name finds the saved row and every other name finds what it found before. */
  lemma {:induction false} FindByNameAfterSave(t: Table, c: Config, n: string)
    ensures FindByName(Save(t, c), n) == if n == c.name then Some(c) else FindByName(t, n)
  {
    if t != [] && t[0].name != c.name {
      FindByNameAfterSave(t[1..], c, n);
    }
  }

  /** A save keeps the key constraint. */
  lemma {:induction false} SaveKeepsUniqueNames(t: Table, c: Config)
    requires UniqueNames(t)
    ensures UniqueNames(Save(t, c))
  {
    if t != [] && t[0].name != c.name {
      SaveKeepsUniqueNames(t[1..], c);
      var r := Save(t, c);
      forall j | 0 < j < |r|
        ensures r[j].name != t[0].name
      {
        FindByNameAfterSave(t[1..], c, r[j].name);
        assert r[j] in Save(t[1..], c);
      }
    }
  }

  /** A save leaves only the saved row and rows that were there. */
  lemma {:induction false} SaveKeepsRows(t: Table, c: Config, d: Config)
    requires d in Save(t, c)
    ensures d == c || d in t
  {
    if t != [] && t[0].name != c.name && d != t[0] {
      SaveKeepsRows(t[1..], c, d);
    }
  }

  /** Saving a well-formed document keeps every row's metadata well formed. */
  lemma SaveKeepsWellFormed(t: Table, c: Config)
    requires WellFormedRows(t) && WellFormed(JObject(c.metaData))
    ensures WellFormedRows(Save(t, c))
  {
    forall d | d in Save(t, c)
      ensures WellFormed(JObject(d.metaData))
    {
      SaveKeepsRows(t, c, d);
    }
  }

  /** In the keyed view a save is an insert-or-overwrite of one key. */
  lemma SaveStore(t: Table, c: Config)
    requires UniqueNames(t)
    ensures UniqueNames(Save(t, c))
    ensures Store(Save(t, c)) == Store(t)[c.name := c.metaData]
  {
    SaveKeepsUniqueNames(t, c);
    var before, after := Store(t), Store(Save(t, c));
    var expected := before[c.name := c.metaData];
    forall n
      ensures n in after <==> n in expected
      ensures n in after ==> after[n] == expected[n]
    {
      FindByNameAfterSave(t, c, n);
    }
    assert after == expected;
  }

  /** `delete` of the row named `n`; a name without a row leaves the table as it is. */
  function Delete(t: Table, n: string): (r: Table)
    ensures FindByName(t, n).None? ==> r == t
    ensures FindByName(t, n).Some? ==> |r| == |t| - 1
  {
    if t == [] then []
    else if t[0].name == n then t[1..]
    else [t[0]] + Delete(t[1..], n)
  }

  /** A delete leaves only rows that were there: the others keep their names
      apart from the deleted one. */
  lemma {:induction false} DeleteKeepsRows(t: Table, n: string, c: Config)
    requires c in Delete(t, n)
    ensures c in t && (UniqueNames(t) ==> c.name != n)
  {
    if t != [] && t[0].name != n && c != t[0] {
      DeleteKeepsRows(t[1..], n, c);
    }
  }

  /** A delete keeps the key constraint. */
  lemma {:induction false} DeleteKeepsUniqueNames(t: Table, n: string)
    requires UniqueNames(t)
    ensures UniqueNames(Delete(t, n))
  {
    if t != [] && t[0].name != n {
      DeleteKeepsUniqueNames(t[1..], n);
      var r := Delete(t, n);
      forall j | 0 < j < |r|
        ensures r[j].name != t[0].name
      {
        assert r[j] in Delete(t[1..], n);
        DeleteKeepsRows(t[1..], n, r[j]);
      }
    }
  }

  /** A delete keeps every row's metadata well formed. */
  lemma DeleteKeepsWellFormed(t: Table, n: string)
    requires WellFormedRows(t)
    ensures WellFormedRows(Delete(t, n))
  {
    forall d | d in Delete(t, n)
      ensures WellFormed(JObject(d.metaData))
    {
      DeleteKeepsRows(t, n, d);
    }
  }

  /** After a delete the name finds nothing and every other name finds what it found before. */
  lemma {:induction false} FindByNameAfterDelete(t: Table, n: string, m: string)
    requires UniqueNames(t)
    ensures FindByName(Delete(t, n), m) == if m == n then None else FindByName(t, m)
  {
    if t != [] {
      if t[0].name != n {
        FindByNameAfterDelete(t[1..], n, m);
      } else if m == n {
        FindByNameFindsRow(t, 0);
        assert forall i | 0 < i < |t| :: t[i].name != n;
        assert FindByName(t[1..], n).None?;
      }
    }
  }

  /** In the keyed view a delete removes one key. */
  lemma DeleteStore(t: Table, n: string)
    requires UniqueNames(t)
    ensures UniqueNames(Delete(t, n))
    ensures Store(Delete(t, n)) == Store(t) - {n}
  {
    DeleteKeepsUniqueNames(t, n);
    var before, after := Store(t), Store(Delete(t, n));
    var expected := before - {n};
    forall m
      ensures m in after <==> m in expected
      ensures m in after ==> after[m] == expected[m]
    {
      DeleteStoreAt(t, n, m);
    }
    assert after == expected;
  }

  lemma DeleteStoreAt(t: Table, n: string, m: string)
    requires UniqueNames(t) && UniqueNames(Delete(t, n))
    ensures m in Store(Delete(t, n)) <==> m in Store(t) && m != n
    ensures m in Store(Delete(t, n)) ==> Store(Delete(t, n))[m] == Store(t)[m]
  {
    FindByNameAfterDelete(t, n, m);
    var before, after := Store(t), Store(Delete(t, n));
    if m in after {
      assert FindByName(Delete(t, n), m) == Some(Config(m, after[m]));
      assert FindByName(t, m) == Some(Config(m, before[m]));
    }
  }

  /** Deleting twice is deleting once. */
  lemma DeleteIdempotent(t: Table, n: string)
    requires UniqueNames(t)
    ensures Delete(Delete(t, n), n) == Delete(t, n)
  {
    DeleteKeepsUniqueNames(t, n);
    FindByNameAfterDelete(t, n, n);
  }

  /** `findByMetaDataContains(s)`: the rows whose metadata text contains `s`, in table order. */
  function FindByMetaDataContains(t: Table, s: string): (r: seq<Config>)
    ensures IsSubsequence(r, t)
    ensures forall c | c in r :: c in t && Contains(MetaDataText(c), s)
    ensures forall c | c in t && Contains(MetaDataText(c), s) :: c in r
    ensures (forall i | 0 <= i < |t| :: Contains(MetaDataText(t[i]), s)) ==> r == t
  {
    var p := (c: Config) => Contains(MetaDataText(c), s);
    FilterIsSubsequence(t, p);
    if forall i | 0 <= i < |t| :: p(t[i]) then FilterAll(t, p); Filter(t, p) else Filter(t, p)
  }

  /** The text pre-filter loses no row that has `segment` as a top-level key,
      as long as the writer copies `segment` unescaped. */
  lemma PrefilterComplete(t: Table, c: Config, segment: string)
    requires c in t
    requires Get(c.metaData, segment).Some? && Plain(segment)
    ensures c in FindByMetaDataContains(t, segment)
  {
    KeyInObject(c.metaData, segment);
  }

  /** The writer escapes every `/`, so a segment holding a `/` after another
      character than a backslash matches no row's text. */
  lemma PrefilterMissesSlash(t: Table, segment: string, p: nat)
    requires 0 < p < |segment| && segment[p] == '/' && segment[p - 1] != '\\'
    ensures FindByMetaDataContains(t, segment) == []
  {
    var r := FindByMetaDataContains(t, segment);
    forall c | c in r
      ensures false
    {
      SerializeSlashes(JObject(c.metaData));
      UnescapedSlashNotContained(MetaDataText(c), segment, p);
    }
  }
}
