/**
 * Cargo.lock as the tool uses it: the decoded entries are sorted by
 * (name, version, source) when the lockfile is loaded, and a manifest's
 * entry is then found by binary search on the same key.
 */
module CargoLock {
  import opened Wrappers
  import opened Cargo
  import opened KeyOrder

  /** The lockfile format marker; it carries no data once decoded. */
  datatype Hopefully3 = Hopefully3

  datatype LockfilePackage = LockfilePackage(
    name: string,
    version: Version,
    source: Option<Source>,
    checksum: Option<string>)

  function EntryKey(p: LockfilePackage): Key
  {
    Key(p.name, p.version, p.source)
  }

  function ManifestKey(m: Manifest): Key
  {
    Key(m.name, m.version, m.source)
  }

  /** Entries in non-decreasing key order. */
  ghost predicate SortedByKey(s: seq<LockfilePackage>)
  {
    forall i, j :: 0 <= i < j < |s| ==> KeyLe(EntryKey(s[i]), EntryKey(s[j]))
  }

  /** The outcome of decoding the `version` field, and whether a warning is logged. */
  datatype VersionCheck = VersionCheck(outcome: Result<Hopefully3, string>, warned: bool)

  /**
   * Decodes the format marker from the TOML integer `raw`. The value is read
   * as a `usize`, so only a negative value fails; every other value is
   * accepted, and a warning is logged exactly when it is not 3.
   */
  function DeserializeVersion(raw: int): (c: VersionCheck)
    ensures c.outcome.Ok? <==> raw >= 0
    ensures c.warned <==> raw >= 0 && raw != 3
    ensures raw == 3 ==> c == VersionCheck(Ok(Hopefully3), false)
  {
    if raw < 0 then VersionCheck(Err("invalid value: expected usize"), false)
    else VersionCheck(Ok(Hopefully3), raw != 3)
  }

  method Swap(a: array<LockfilePackage>, i: nat, j: nat)
    requires i < a.Length && j < a.Length
    modifies a
    ensures a[i] == old(a[j]) && a[j] == old(a[i])
    ensures forall k :: 0 <= k < a.Length && k != i && k != j ==> a[k] == old(a[k])
    ensures multiset(a[..]) == old(multiset(a[..]))
  {
    a[i], a[j] := a[j], a[i];
  }

  /**
   * Sorts the entries in place by key (an insertion sort that swaps an
   * entry down past every strictly greater one, so it is stable, like
   * Rust's `sort_by`).
   */
  method SortByKey(a: array<LockfilePackage>)
    modifies a
    ensures SortedByKey(a[..])
    ensures multiset(a[..]) == old(multiset(a[..]))
  {
    for i := 0 to a.Length
      invariant SortedByKey(a[..i])
      invariant multiset(a[..]) == old(multiset(a[..]))
    {
      InsertDown(a, i);
    }
    assert a[..] == a[..a.Length];
  }

  /** One step of the sort: swaps `a[i]` down past every strictly greater entry before it. */
  method InsertDown(a: array<LockfilePackage>, i: nat)
    requires i < a.Length
    requires SortedByKey(a[..i])
    modifies a
    ensures SortedByKey(a[..i + 1])
    ensures multiset(a[..]) == old(multiset(a[..]))
  {
    var j := i;
    while j > 0 && CmpKey(EntryKey(a[j - 1]), EntryKey(a[j])) == Greater
      invariant 0 <= j <= i
      invariant multiset(a[..]) == old(multiset(a[..]))
      invariant forall p, q :: 0 <= p < q <= i && q != j ==> KeyLe(EntryKey(a[p]), EntryKey(a[q]))
      invariant forall q :: j < q <= i ==> CmpKey(EntryKey(a[j]), EntryKey(a[q])) == Less
    {
      CmpKeyReverse(EntryKey(a[j - 1]), EntryKey(a[j]));
      Swap(a, j - 1, j);
      j := j - 1;
    }
    forall p | 0 <= p < j
      ensures KeyLe(EntryKey(a[p]), EntryKey(a[j]))
    {
      if p < j - 1 {
        KeyLeTrans(EntryKey(a[p]), EntryKey(a[j - 1]), EntryKey(a[j]));
      }
    }
  }

  class Lockfile {
    var version: Hopefully3
    var packages: array<LockfilePackage>

    /** Loads a lockfile from its decoded entries: the entries are sorted by key. */
    constructor Load(version: Hopefully3, decoded: seq<LockfilePackage>)
      ensures this.version == version
      ensures fresh(packages)
      ensures SortedByKey(packages[..])
      ensures multiset(packages[..]) == multiset(decoded)
    {
      var entries := new LockfilePackage[|decoded|](i requires 0 <= i < |decoded| => decoded[i]);
      assert entries[..] == decoded;
      SortByKey(entries);
      this.version := version;
      this.packages := entries;
    }

    /**
     * Binary search for the entry whose key is the manifest's. A returned
     * entry is always an exact match; on sorted entries, nothing is
     * returned only when no entry has that key.
     */
    method Find(manifest: Manifest) returns (r: Option<LockfilePackage>)
      ensures r.Some? ==> r.value in packages[..] && EntryKey(r.value) == ManifestKey(manifest)
      ensures SortedByKey(packages[..]) ==>
                (r.None? <==> forall i :: 0 <= i < packages.Length ==> EntryKey(packages[i]) != ManifestKey(manifest))
    {
      var key := ManifestKey(manifest);
      var lo, hi := 0, packages.Length;
      while lo < hi
        invariant 0 <= lo <= hi <= packages.Length
        invariant SortedByKey(packages[..]) ==>
                    forall i :: 0 <= i < lo ==> CmpKey(EntryKey(packages[i]), key) == Less
        invariant SortedByKey(packages[..]) ==>
                    forall i :: hi <= i < packages.Length ==> CmpKey(EntryKey(packages[i]), key) == Greater
      {
        var mid := lo + (hi - lo) / 2;
        var entry := packages[mid];
        match CmpKey(EntryKey(entry), key)
        case Equal =>
          CmpKeyEqual(EntryKey(entry), key);
          return Some(entry);
        case Less =>
          if SortedByKey(packages[..]) {
            forall i | 0 <= i <= mid
              ensures CmpKey(EntryKey(packages[i]), key) == Less
            {
              if i < mid {
                KeyLeLessTrans(EntryKey(packages[i]), EntryKey(entry), key);
              }
            }
          }
          lo := mid + 1;
        case Greater =>
          if SortedByKey(packages[..]) {
            forall i | mid <= i < packages.Length
              ensures CmpKey(EntryKey(packages[i]), key) == Greater
            {
              if mid < i {
                LeGreaterTrans(EntryKey(entry), EntryKey(packages[i]), key);
              }
            }
          }
          hi := mid;
      }
      forall i | 0 <= i < packages.Length
        ensures SortedByKey(packages[..]) ==> EntryKey(packages[i]) != key
      {
        CmpKeyEqual(EntryKey(packages[i]), key);
      }
      return None;
    }
  }
}
