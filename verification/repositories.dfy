/** `ProcessedTextRepository` (src/ytsum/storage/repositories.py): the
    processed texts of one video, kept in memory and mirrored to a blob
    store as one file per text plus a metadata file holding a counter and
    the set of stored indices.

    The blob store is a map from path to what was saved there. The model
    loads the stored indices in ascending order. CPython iterates a set in
    hash-table slot order, which is the same for indices 0, 1, ..., n-1
    but not for every set of indices.
 */
module Repositories {
  import opened Wrappers
  import opened Text

  datatype ProcessedText = ProcessedText(index: int, text: string, originalText: string)

  /** `ProcessedTextMetadata`: the number of `add` calls seen and the set of
      indices added. */
  datatype Metadata = Metadata(count: int, indices: set<int>)

  const NoMetadata: Metadata := Metadata(0, {})

  /** What a path of the store holds: a saved metadata record or a saved
      processed text. */
  datatype Blob = MetaBlob(meta: Metadata) | TextBlob(text: ProcessedText)

  type Store = map<string, Blob>

  /** The repository object: its path prefix, the texts in memory and the
      metadata in memory. */
  datatype Repo = Repo(prefix: string, texts: seq<ProcessedText>, meta: Metadata)

  /** A repository as constructed: nothing in memory yet. */
  function NewRepo(prefix: string): (r: Repo)
    ensures r.prefix == prefix && |r.texts| == 0 && r.meta.count == 0 && r.meta.indices == {}
  {
    Repo(prefix, [], NoMetadata)
  }

  // ---------------------------------------------------------------- paths

  function MetaPath(prefix: string): string {
    prefix + "/meta-data.json"
  }

  function DataPath(prefix: string, index: int): string {
    prefix + "/data/" + IntToString(index) + ".json"
  }

  lemma DecimalInjective(a: nat, b: nat)
    requires Decimal(a) == Decimal(b)
    ensures a == b
  {
    DecimalValue(a);
    DecimalValue(b);
  }

  lemma IntToStringInjective(a: int, b: int)
    requires IntToString(a) == IntToString(b)
    ensures a == b
  {
    var s := IntToString(a);
    assert IsDigit(Decimal(if a < 0 then -a else a)[0]);
    assert IsDigit(Decimal(if b < 0 then -b else b)[0]);
    if a < 0 && b < 0 {
      assert Decimal(-a) == s[1..] == Decimal(-b);
      DecimalInjective(-a, -b);
    } else if a >= 0 && b >= 0 {
      DecimalInjective(a, b);
    }
  }

  /** The metadata file is never a data file, and different indices have
      different data files. */
  lemma PathsDistinct(prefix: string, i: int, j: int)
    ensures MetaPath(prefix) != DataPath(prefix, i)
    ensures DataPath(prefix, i) == DataPath(prefix, j) <==> i == j
  {
    assert MetaPath(prefix)[|prefix| + 1] == 'm';
    assert DataPath(prefix, i)[|prefix| + 1] == 'd';
    if DataPath(prefix, i) == DataPath(prefix, j) {
      var p, q := DataPath(prefix, i), DataPath(prefix, j);
      var n := |prefix| + 6;
      assert |IntToString(i)| == |IntToString(j)|;
      assert p[n..|p| - 5] == IntToString(i);
      assert q[n..|q| - 5] == IntToString(j);
      IntToStringInjective(i, j);
    }
  }

  // ---------------------------------------------------------------- sets of indices

  /** A non-empty set has an element. */
  lemma Inhabited(s: set<int>)
    requires s != {}
    ensures exists y :: y in s
  {
    assert (forall y :: y !in s) ==> s == {};
  }

  lemma {:induction false} HasLeast(s: set<int>)
    requires s != {}
    ensures exists m :: m in s && forall x :: x in s ==> m <= x
    decreases |s|
  {
    Inhabited(s);
    var y :| y in s;
    var rest := s - {y};
    assert forall x :: x in s ==> x == y || x in rest;
    if rest != {} {
      HasLeast(rest);
      var m :| m in rest && forall x :: x in rest ==> m <= x;
      var least := if y < m then y else m;
      assert least in s && forall x :: x in s ==> least <= x;
    } else {
      assert forall x :: x in s ==> y <= x;
    }
  }

  lemma {:induction false} HasGreatest(s: set<int>)
    requires s != {}
    ensures exists m :: m in s && forall x :: x in s ==> x <= m
    decreases |s|
  {
    Inhabited(s);
    var y :| y in s;
    var rest := s - {y};
    assert forall x :: x in s ==> x == y || x in rest;
    if rest != {} {
      HasGreatest(rest);
      var m :| m in rest && forall x :: x in rest ==> x <= m;
      var greatest := if y > m then y else m;
      assert greatest in s && forall x :: x in s ==> x <= greatest;
    } else {
      assert forall x :: x in s ==> x <= y;
    }
  }

  function Least(s: set<int>): (m: int)
    requires s != {}
    ensures m in s && forall x :: x in s ==> m <= x
  {
    HasLeast(s);
    var m :| m in s && forall x :: x in s ==> m <= x;
    m
  }

  /** `max(s)` of a non-empty set. */
  function Greatest(s: set<int>): (m: int)
    requires s != {}
    ensures m in s && forall x :: x in s ==> x <= m
  {
    HasGreatest(s);
    var m :| m in s && forall x :: x in s ==> x <= m;
    m
  }

  /** The elements of a set in ascending order, each once. */
  function Ascending(s: set<int>): (xs: seq<int>)
    ensures |xs| == |s|
    ensures forall i :: 0 <= i < |xs| ==> xs[i] in s
    ensures forall x :: x in s ==> x in xs
    ensures forall i, j :: 0 <= i < j < |xs| ==> xs[i] < xs[j]
    decreases |s|
  {
    if s == {} then []
    else
      var m := Least(s);
      var rest := Ascending(s - {m});
      LeastFirst(s, m, rest);
      [m] + rest
  }

  /** Putting the least element in front of the others in order keeps the
      order and the elements. */
  lemma LeastFirst(s: set<int>, m: int, rest: seq<int>)
    requires m in s && forall x :: x in s ==> m <= x
    requires |rest| == |s - {m}|
    requires forall i :: 0 <= i < |rest| ==> rest[i] in s - {m}
    requires forall x :: x in s - {m} ==> x in rest
    requires forall i, j :: 0 <= i < j < |rest| ==> rest[i] < rest[j]
    ensures |[m] + rest| == |s|
    ensures forall i :: 0 <= i < |[m] + rest| ==> ([m] + rest)[i] in s
    ensures forall x :: x in s ==> x in [m] + rest
    ensures forall i, j :: 0 <= i < j < |[m] + rest| ==> ([m] + rest)[i] < ([m] + rest)[j]
  {
    var xs := [m] + rest;
    ConsIndex(m, rest);
    assert s == (s - {m}) + {m};
    assert |s| == |s - {m}| + 1;
    forall i | 0 <= i < |xs|
      ensures xs[i] in s
    {
      if i > 0 {
        assert xs[i] == rest[i - 1] && rest[i - 1] in s - {m};
      }
    }
    forall i, j | 0 <= i < j < |xs|
      ensures xs[i] < xs[j]
    {
      assert xs[j] == rest[j - 1] && rest[j - 1] in s - {m};
      if i > 0 {
        assert xs[i] == rest[i - 1];
      }
    }
    forall x | x in s
      ensures x in xs
    {
      if x != m {
        assert x in s - {m};
        var i :| 0 <= i < |rest| && rest[i] == x;
        assert xs[i + 1] == x;
      }
    }
  }

  // ---------------------------------------------------------------- store access

  /** `load_model` of a metadata record: a missing file fails, and so does
      a file that holds something else. */
  function ReadMeta(store: Store, path: string): (r: Result<Metadata>)
    ensures r.Ok? <==> path in store && store[path].MetaBlob?
    ensures r.Ok? ==> store[path] == MetaBlob(r.value)
  {
    if path !in store then Err(FileNotFound(path))
    else match store[path]
      case MetaBlob(m) => Ok(m)
      case TextBlob(_) => Err(ValueError(path))
  }

  /** `load_model` of a processed text. */
  function ReadText(store: Store, path: string): (r: Result<ProcessedText>)
    ensures r.Ok? <==> path in store && store[path].TextBlob?
    ensures r.Ok? ==> store[path] == TextBlob(r.value)
    ensures path !in store ==> r == Err(FileNotFound(path))
  {
    if path !in store then Err(FileNotFound(path))
    else match store[path]
      case TextBlob(t) => Ok(t)
      case MetaBlob(_) => Err(ValueError(path))
  }

  /** The data file of an index holds a processed text. */
  predicate HasText(store: Store, prefix: string, index: int) {
    DataPath(prefix, index) in store && store[DataPath(prefix, index)].TextBlob?
  }

  /** The texts of the given indices, in that order; the first missing one
      fails the whole read. */
  function ReadTexts(store: Store, prefix: string, order: seq<int>): (r: Result<seq<ProcessedText>>)
    ensures r.Ok? <==> forall k :: 0 <= k < |order| ==> HasText(store, prefix, order[k])
    ensures r.Ok? ==> |r.value| == |order|
                      && forall k :: 0 <= k < |order| ==> store[DataPath(prefix, order[k])] == TextBlob(r.value[k])
  {
    if |order| == 0 then Ok([])
    else
      var t :- ReadText(store, DataPath(prefix, order[0]));
      var rest :- ReadTexts(store, prefix, order[1..]);
      assert forall k :: 1 <= k < |order| ==> order[k] == order[1..][k - 1];
      Ok([t] + rest)
  }

  // ---------------------------------------------------------------- operations

  /** `load`: without a metadata file, save the metadata in memory and
      load nothing; otherwise read the metadata and append the text of
      every index it lists. Returns the repository and the store after. */
  function Load(repo: Repo, store: Store): (r: Result<(Repo, Store)>)
    ensures MetaPath(repo.prefix) !in store ==>
              r == Ok((repo, store[MetaPath(repo.prefix) := MetaBlob(repo.meta)]))
    ensures MetaPath(repo.prefix) in store && r.Ok? ==>
              && store[MetaPath(repo.prefix)] == MetaBlob(r.value.0.meta)
              && r.value.1 == store
              && r.value.0.prefix == repo.prefix
              && |r.value.0.texts| == |repo.texts| + |r.value.0.meta.indices|
              && r.value.0.texts[..|repo.texts|] == repo.texts
              && forall k :: 0 <= k < |r.value.0.meta.indices| ==>
                   && DataPath(repo.prefix, Ascending(r.value.0.meta.indices)[k]) in store
                   && store[DataPath(repo.prefix, Ascending(r.value.0.meta.indices)[k])]
                      == TextBlob(r.value.0.texts[|repo.texts| + k])
    ensures MetaPath(repo.prefix) in store ==>
              (r.Ok? <==> store[MetaPath(repo.prefix)].MetaBlob?
                          && forall i :: i in store[MetaPath(repo.prefix)].meta.indices ==>
                               HasText(store, repo.prefix, i))
  {
    var path := MetaPath(repo.prefix);
    if path !in store then Ok((repo, store[path := MetaBlob(repo.meta)]))
    else
      var meta :- ReadMeta(store, path);
      var order := Ascending(meta.indices);
      var texts :- ReadTexts(store, repo.prefix, order);
      assert (repo.texts + texts)[..|repo.texts|] == repo.texts;
      Ok((Repo(repo.prefix, repo.texts + texts, meta), store))
  }

  /** One save to the store. */
  datatype Write = Write(path: string, blob: Blob)

  function Apply(store: Store, ws: seq<Write>): Store
    decreases |ws|
  {
    if |ws| == 0 then store
    else Apply(store[ws[0].path := ws[0].blob], ws[1..])
  }

  /** The metadata after `add`: the counter goes up by one whether or not
      the index is new. */
  function Counted(meta: Metadata, index: int): (m: Metadata)
    ensures m.count == meta.count + 1
    ensures m.indices == meta.indices + {index}
  {
    Metadata(meta.count + 1, meta.indices + {index})
  }

  /** The saves `add` makes, in order: the text under its index's path
      first, then the updated metadata. */
  function AddWrites(repo: Repo, pt: ProcessedText): (ws: seq<Write>)
    ensures |ws| == 2
    ensures ws[0].path == DataPath(repo.prefix, pt.index) && ws[0].blob == TextBlob(pt)
    ensures ws[1].path == MetaPath(repo.prefix) && ws[1].blob == MetaBlob(Counted(repo.meta, pt.index))
  {
    [Write(DataPath(repo.prefix, pt.index), TextBlob(pt)),
     Write(MetaPath(repo.prefix), MetaBlob(Counted(repo.meta, pt.index)))]
  }

  /** `add`: save the text, count it, record its index, save the metadata
      and append the text in memory; the prefix stays. */
  function Add(repo: Repo, store: Store, pt: ProcessedText): (r: (Repo, Store))
    ensures r.0.prefix == repo.prefix
    ensures r.0.texts == repo.texts + [pt]
    ensures r.0.meta.count == repo.meta.count + 1
    ensures r.0.meta.indices == repo.meta.indices + {pt.index}
    ensures r.1 == Apply(store, AddWrites(repo, pt))
  {
    (Repo(repo.prefix, repo.texts + [pt], Counted(repo.meta, pt.index)), Apply(store, AddWrites(repo, pt)))
  }

  /** `get_last_index`: the greatest stored index, or 0 when none is
      stored. */
  function LastIndex(repo: Repo): (r: int)
    ensures repo.meta.indices == {} ==> r == 0
    ensures repo.meta.indices != {} ==> r in repo.meta.indices && forall i :: i in repo.meta.indices ==> i <= r
  {
    if repo.meta.indices == {} then 0 else Greatest(repo.meta.indices)
  }

  // ---------------------------------------------------------------- properties

  /** The store agrees with the repository's metadata: the metadata file
      holds it and every listed index has its text file. */
  ghost predicate Mirrored(repo: Repo, store: Store) {
    && MetaPath(repo.prefix) in store
    && store[MetaPath(repo.prefix)] == MetaBlob(repo.meta)
    && forall i :: i in repo.meta.indices ==> HasText(store, repo.prefix, i)
  }

  lemma ApplyTwo(store: Store, ws: seq<Write>)
    requires |ws| == 2
    ensures Apply(store, ws) == store[ws[0].path := ws[0].blob][ws[1].path := ws[1].blob]
  {
    var s1 := store[ws[0].path := ws[0].blob];
    assert Apply(store, ws) == Apply(s1, ws[1..]);
    assert Apply(s1, ws[1..]) == Apply(s1[ws[1].path := ws[1].blob], ws[2..]);
  }

  /** `add` keeps the store mirroring the repository, so a repository
      loaded afresh from the store after `add` sees the new metadata and
      reads back the added text. */
  lemma AddThenLoad(repo: Repo, store: Store, pt: ProcessedText)
    requires Mirrored(repo, store)
    ensures Mirrored(Add(repo, store, pt).0, Add(repo, store, pt).1)
    ensures Load(NewRepo(repo.prefix), Add(repo, store, pt).1).Ok?
    ensures Load(NewRepo(repo.prefix), Add(repo, store, pt).1).value.0.meta == Add(repo, store, pt).0.meta
    ensures pt in Load(NewRepo(repo.prefix), Add(repo, store, pt).1).value.0.texts
  {
    var prefix := repo.prefix;
    var after := Add(repo, store, pt);
    var ws := AddWrites(repo, pt);
    ApplyTwo(store, ws);
    var s1 := store[DataPath(prefix, pt.index) := TextBlob(pt)];
    assert after.1 == s1[MetaPath(prefix) := MetaBlob(after.0.meta)];
    forall i | i in after.0.meta.indices
      ensures HasText(after.1, prefix, i)
    {
      PathsDistinct(prefix, i, pt.index);
    }
    var empty := NewRepo(prefix);
    var loaded := Load(empty, after.1).value.0;
    var order := Ascending(after.0.meta.indices);
    var k :| 0 <= k < |order| && order[k] == pt.index;
    assert after.1[DataPath(prefix, pt.index)] == TextBlob(pt) by {
      PathsDistinct(prefix, pt.index, pt.index);
    }
    assert loaded.texts[k] == pt;
  }

  /** Were the run to stop between the two saves of `add`, the text file
      would be in the store but a reload would not know of it: the
      metadata file still holds the old metadata. */
  lemma AddInterrupted(repo: Repo, store: Store, pt: ProcessedText)
    requires Mirrored(repo, store)
    ensures Load(NewRepo(repo.prefix), Apply(store, AddWrites(repo, pt)[..1])).Ok?
    ensures Load(NewRepo(repo.prefix), Apply(store, AddWrites(repo, pt)[..1])).value.0.meta == repo.meta
  {
    var prefix := repo.prefix;
    var ws := AddWrites(repo, pt)[..1];
    var s1 := store[DataPath(prefix, pt.index) := TextBlob(pt)];
    assert Apply(store, ws) == Apply(s1, ws[1..]);
    assert Apply(store, ws) == s1;
    PathsDistinct(prefix, pt.index, pt.index);
    forall i | i in repo.meta.indices
      ensures HasText(s1, prefix, i)
    {
      PathsDistinct(prefix, i, pt.index);
    }
  }

  /** Adding an index that is already stored still raises the counter, so
      the counter then exceeds the number of distinct indices. */
  lemma CountOutgrowsIndices(repo: Repo, store: Store, pt: ProcessedText)
    requires repo.meta.count >= |repo.meta.indices|
    requires pt.index in repo.meta.indices
    ensures Add(repo, store, pt).0.meta.count > |Add(repo, store, pt).0.meta.indices|
  {
    assert repo.meta.indices + {pt.index} == repo.meta.indices;
  }

  /** With a store that has no metadata file, `load` creates it from the
      metadata in memory and a fresh repository stays empty. */
  lemma LoadCreatesMetadata(prefix: string, store: Store)
    requires MetaPath(prefix) !in store
    ensures Load(NewRepo(prefix), store).Ok?
    ensures Load(NewRepo(prefix), store).value.0 == NewRepo(prefix)
    ensures Load(NewRepo(prefix), store).value.1[MetaPath(prefix)] == MetaBlob(NoMetadata)
  {
  }

  /** After `add`, the last index is at least the added one. */
  lemma LastIndexAfterAdd(repo: Repo, store: Store, pt: ProcessedText)
    ensures LastIndex(Add(repo, store, pt).0) >= pt.index
    ensures LastIndex(Add(repo, store, pt).0) == (if repo.meta.indices == {} || LastIndex(repo) < pt.index then pt.index else LastIndex(repo))
  {
  }
}
