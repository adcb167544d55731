/** The checksum over secrets and config maps that restarts pods: what it depends on and what it tells apart. */
module Checksum {
  import opened Ordering

  type Data = map<string, string>
  type Hash = string -> string

  function Concat(parts: seq<string>): string {
    if parts == [] then "" else parts[0] + Concat(parts[1..])
  }

  function Written(entries: seq<(string, string)>): string {
    if entries == [] then "" else entries[0].0 + entries[0].1 + Written(entries[1..])
  }

  /** What is fed to the hash for one map: keys and values in key order, without separators. */
  ghost function Stream(data: Data): string {
    Written(SortedEntries(data, StringBefore))
  }

  ghost function Streams(maps: seq<Data>): (r: seq<string>)
    ensures |r| == |maps| && forall i :: 0 <= i < |r| ==> r[i] == Stream(maps[i])
  {
    if maps == [] then [] else [Stream(maps[0])] + Streams(maps[1..])
  }

  function Digests(hash: Hash, streams: seq<string>): (r: seq<string>)
    ensures |r| == |streams| && forall i :: 0 <= i < |r| ==> r[i] == hash(streams[i])
  {
    if streams == [] then [] else [hash(streams[0])] + Digests(hash, streams[1..])
  }

  ghost function SumOf(hash: Hash, streams: seq<string>): string {
    if streams == [] then "" else hash(Concat(Sort(Digests(hash, streams), StringBefore)))
  }

  method HashMap(data: Data, hash: Hash) returns (digest: string)
    ensures digest == hash(Stream(data))
  {
    var pairs := ToPairs(data);
    StringBeforeIsTotal();
    IterationOrderIsIrrelevant(pairs, data, StringBefore);
    var written := WriteEntries(Sort(pairs, ByKey(StringBefore)));
    return hash(written);
  }

  method WriteEntries(entries: seq<(string, string)>) returns (written: string)
    ensures written == Written(entries)
  {
    written := "";
    for i := 0 to |entries|
      invariant written + Written(entries[i..]) == Written(entries)
    {
      assert entries[i..][1..] == entries[i + 1..];
      written := written + (entries[i].0 + entries[i].1);
    }
  }

  method WriteAll(parts: seq<string>) returns (written: string)
    ensures written == Concat(parts)
  {
    written := "";
    for i := 0 to |parts|
      invariant written + Concat(parts[i..]) == Concat(parts)
    {
      assert parts[i..][1..] == parts[i + 1..];
      written := written + parts[i];
    }
  }

  method DigestAll(maps: seq<Data>, hash: Hash) returns (checksums: seq<string>)
    ensures checksums == Digests(hash, Streams(maps))
  {
    checksums := [];
    for i := 0 to |maps|
      invariant |checksums| == i && forall j :: 0 <= j < i ==> checksums[j] == hash(Stream(maps[j]))
    {
      var digest := HashMap(maps[i], hash);
      checksums := checksums + [digest];
    }
    DigestsAre(hash, maps, checksums);
  }

  lemma DigestsAre(hash: Hash, maps: seq<Data>, checksums: seq<string>)
    requires |checksums| == |maps| && forall i :: 0 <= i < |maps| ==> checksums[i] == hash(Stream(maps[i]))
    ensures checksums == Digests(hash, Streams(maps))
  {
    var streams := Streams(maps);
    assert |Digests(hash, streams)| == |checksums|;
  }

  method CalculateChecksum(maps: seq<Data>, hash: Hash) returns (sum: string)
    ensures sum == SumOf(hash, Streams(maps))
  {
    var checksums := DigestAll(maps, hash);
    if |checksums| == 0 {
      return "";
    }
    var written := WriteAll(Sort(checksums, StringBefore));
    return hash(written);
  }

  // ---------------------------------------------------------------- what is written

  /** Entries are written one after the other, each as its key and its value. */
  lemma {:induction false} WrittenInParts(a: seq<(string, string)>, key: string, value: string)
    ensures Written(a + [(key, value)]) == Written(a) + (key + value)
    ensures Written([]) == ""
    decreases |a|
  {
    if a == [] {
      assert [(key, value)][1..] == [];
      assert Written([(key, value)]) == key + value + Written([]);
    } else {
      assert (a + [(key, value)])[0] == a[0] && (a + [(key, value)])[1..] == a[1..] + [(key, value)];
      WrittenInParts(a[1..], key, value);
    }
  }

  lemma {:induction false} ConcatInParts(a: seq<string>, x: string)
    ensures Concat(a + [x]) == Concat(a) + x && Concat([]) == ""
    decreases |a|
  {
    if a == [] {
      assert [x][1..] == [];
    } else {
      assert (a + [x])[0] == a[0] && (a + [x])[1..] == a[1..] + [x];
      ConcatInParts(a[1..], x);
    }
  }

  /** The sum of any maps is the hash of their digests, sorted and concatenated, and of none it is empty. */
  lemma SumExactly(hash: Hash, streams: seq<string>)
    ensures streams == [] ==> SumOf(hash, streams) == ""
    ensures streams != [] ==>
              exists digests: seq<string> ::
                && multiset(digests) == multiset(Digests(hash, streams))
                && Sorted(digests, StringBefore)
                && SumOf(hash, streams) == hash(Concat(digests))
  {
    var d := Sort(Digests(hash, streams), StringBefore);
    StringBeforeIsTotal();
    SortPermutes(Digests(hash, streams), StringBefore);
    SortSorts(Digests(hash, streams), StringBefore);
    assert multiset(d) == multiset(Digests(hash, streams)) && Sorted(d, StringBefore);
  }

  // ---------------------------------------------------------------- what it depends on

  /** The checksum depends only on which contents occur how often, not on the order of the maps. */
  lemma ChecksumIgnoresOrder(hash: Hash, a: seq<Data>, b: seq<Data>)
    requires multiset(a) == multiset(b)
    ensures SumOf(hash, Streams(a)) == SumOf(hash, Streams(b))
  {
    SameElements(a, b);
    ImagesPermute(a, b, Streams(a), Streams(b));
    SameStreamsSameSum(hash, Streams(a), Streams(b));
  }

  lemma SameStreamsSameSum(hash: Hash, a: seq<string>, b: seq<string>)
    requires multiset(a) == multiset(b)
    ensures SumOf(hash, a) == SumOf(hash, b)
  {
    SameElements(a, b);
    ImagesPermute(a, b, Digests(hash, a), Digests(hash, b));
    StringBeforeIsTotal();
    SortIsCanonical(Digests(hash, a), Digests(hash, b), StringBefore);
  }

  // ---------------------------------------------------------------- what it tells apart

  /** Digests have one length, and no two of these inputs collide. */
  ghost predicate CollisionFree(hash: Hash, length: nat, inputs: set<string>) {
    && length > 0
    && (forall x :: |hash(x)| == length)
    && (forall x, y :: x in inputs && y in inputs && hash(x) == hash(y) ==> x == y)
  }

  ghost function Inputs(hash: Hash, streams: seq<string>): set<string> {
    (set x | x in streams) + {Concat(Sort(Digests(hash, streams), StringBefore))}
  }

  lemma SomeConcat(a: seq<string>, length: nat)
    requires forall x :: x in a ==> |x| == length
    ensures if a == [] then |Concat(a)| == 0 else |Concat(a)| >= length
  {
    if a != [] {
      assert a[0] in a;
    }
  }

  lemma {:induction false} ConcatOfEqualLengths(a: seq<string>, b: seq<string>, length: nat)
    requires length > 0 && Concat(a) == Concat(b)
    requires forall x :: x in a || x in b ==> |x| == length
    ensures a == b
    decreases |a|
  {
    SomeConcat(a, length);
    SomeConcat(b, length);
    if a != [] && b != [] {
      assert a[0] in a && b[0] in b;
      assert Concat(a)[..length] == a[0] && Concat(b)[..length] == b[0];
      assert Concat(a)[length..] == Concat(a[1..]) && Concat(b)[length..] == Concat(b[1..]);
      ConcatOfEqualLengths(a[1..], b[1..], length);
      assert a == [a[0]] + a[1..] && b == [b[0]] + b[1..];
    }
  }

  lemma {:induction false} DigestCount(hash: Hash, streams: seq<string>, x: string)
    requires forall y :: y in streams && hash(y) == hash(x) ==> y == x
    ensures multiset(Digests(hash, streams))[hash(x)] == multiset(streams)[x]
    decreases |streams|
  {
    if streams != [] {
      assert streams == [streams[0]] + streams[1..];
      DigestCount(hash, streams[1..], x);
    }
  }

  lemma DigestsTellApart(hash: Hash, a: seq<string>, b: seq<string>)
    requires multiset(Digests(hash, a)) == multiset(Digests(hash, b))
    requires forall x, y :: (x in a || x in b) && (y in a || y in b) && hash(x) == hash(y) ==> x == y
    ensures multiset(a) == multiset(b)
  {
    forall x
      ensures multiset(a)[x] == multiset(b)[x]
    {
      if x in a || x in b {
        DigestCount(hash, a, x);
        DigestCount(hash, b, x);
      }
    }
  }

  lemma SortedDigestsTellApart(p: seq<string>, q: seq<string>, length: nat)
    requires length > 0 && forall x :: x in p || x in q ==> |x| == length
    requires Concat(Sort(p, StringBefore)) == Concat(Sort(q, StringBefore))
    ensures multiset(p) == multiset(q)
  {
    var d, e := Sort(p, StringBefore), Sort(q, StringBefore);
    SortPermutes(p, StringBefore);
    SortPermutes(q, StringBefore);
    SameElements(d, p);
    SameElements(e, q);
    ConcatOfEqualLengths(d, e, length);
  }

  /** With a hash that does not collide on what it is fed, checksums agree exactly when the written streams do. */
  lemma ChecksumTellsExactly(hash: Hash, length: nat, a: seq<string>, b: seq<string>)
    requires CollisionFree(hash, length, Inputs(hash, a) + Inputs(hash, b))
    ensures SumOf(hash, a) == SumOf(hash, b) <==> multiset(a) == multiset(b)
  {
    if multiset(a) == multiset(b) {
      SameStreamsSameSum(hash, a, b);
    } else if SumOf(hash, a) == SumOf(hash, b) && a != [] && b != [] {
      var inputs := Inputs(hash, a) + Inputs(hash, b);
      assert Concat(Sort(Digests(hash, a), StringBefore)) in inputs;
      assert Concat(Sort(Digests(hash, b), StringBefore)) in inputs;
      SortedDigestsTellApart(Digests(hash, a), Digests(hash, b), length);
      assert forall x :: x in a || x in b ==> x in inputs;
      DigestsTellApart(hash, a, b);
    }
  }

  lemma SameStreamSameSum(hash: Hash, a: Data, b: Data)
    requires Stream(a) == Stream(b)
    ensures SumOf(hash, Streams([a])) == SumOf(hash, Streams([b]))
  {
    var x, y := Streams([a]), Streams([b]);
    assert x == y;
  }

  /** Keys and values are written without a separator, so no hash can tell these two contents apart. */
  lemma MovedBoundaryIsNotSeen(hash: Hash, key: string, shift: string, value: string)
    ensures SumOf(hash, Streams([map[key := shift + value]])) == SumOf(hash, Streams([map[key + shift := value]]))
  {
    StreamOfOne(key, shift + value);
    StreamOfOne(key + shift, value);
    assert key + (shift + value) == key + shift + value;
    SameStreamSameSum(hash, map[key := shift + value], map[key + shift := value]);
  }

  lemma StreamOfOne(key: string, value: string)
    ensures Stream(map[key := value]) == key + value
  {
    var m := map[key := value];
    var s := SortedEntries(m, StringBefore);
    StringBeforeIsTotal();
    IterationOrderIsIrrelevant([(key, value)], m, StringBefore);
    var before := ByKey<string, string>(StringBefore);
    assert Sort([(key, value)], before) == Insert((key, value), Sort([], before), before);
    assert s == [(key, value)];
    assert Written(s) == key + value + Written([]);
  }
}
