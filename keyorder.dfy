/**
 * The ordering of lockfile entries: the tuple (name, version, source)
 * compared lexicographically, as Rust's derived `Ord` on tuples does.
 * Strings compare character by character, a proper prefix first;
 * versions compare major, then minor, then patch; an absent source comes
 * before any present one.
 */
module KeyOrder {
  import opened Wrappers
  import opened Cargo

  datatype Ordering = Less | Equal | Greater
  {
    function Reverse(): Ordering
    {
      match this
      case Less => Greater
      case Equal => Equal
      case Greater => Less
    }

    /** Rust's `Ordering::then`: this ordering unless it is `Equal`. */
    function Then(next: Ordering): Ordering
    {
      if this == Equal then next else this
    }
  }

  function CmpNat(a: nat, b: nat): Ordering
  {
    if a < b then Less else if a == b then Equal else Greater
  }

  function CmpStr(a: string, b: string): Ordering
  {
    if a == [] then (if b == [] then Equal else Less)
    else if b == [] then Greater
    else if a[0] < b[0] then Less
    else if a[0] > b[0] then Greater
    else CmpStr(a[1..], b[1..])
  }

  function CmpVersion(a: Version, b: Version): Ordering
  {
    CmpNat(a.major, b.major).Then(CmpNat(a.minor, b.minor)).Then(CmpNat(a.patch, b.patch))
  }

  function CmpSource(a: Option<Source>, b: Option<Source>): Ordering
  {
    match (a, b)
    case (None, None) => Equal
    case (None, Some(_)) => Less
    case (Some(_), None) => Greater
    case (Some(x), Some(y)) => CmpStr(x, y)
  }

  /** The sort and search key of a lockfile entry. */
  datatype Key = Key(name: string, version: Version, source: Option<Source>)

  function CmpKey(a: Key, b: Key): Ordering
  {
    CmpStr(a.name, b.name).Then(CmpVersion(a.version, b.version)).Then(CmpSource(a.source, b.source))
  }

  predicate KeyLe(a: Key, b: Key)
  {
    CmpKey(a, b) != Greater
  }

  lemma {:induction false} CmpStrEqual(a: string, b: string)
    ensures CmpStr(a, b) == Equal <==> a == b
  {
    if a != [] && b != [] && a[0] == b[0] {
      CmpStrEqual(a[1..], b[1..]);
      assert a == [a[0]] + a[1..] && b == [b[0]] + b[1..];
    }
  }

  lemma {:induction false} CmpStrReverse(a: string, b: string)
    ensures CmpStr(b, a) == CmpStr(a, b).Reverse()
  {
    if a != [] && b != [] && a[0] == b[0] {
      CmpStrReverse(a[1..], b[1..]);
    }
  }

  lemma {:induction false} CmpStrTrans(a: string, b: string, c: string)
    requires CmpStr(a, b) == Less && CmpStr(b, c) == Less
    ensures CmpStr(a, c) == Less
  {
    if a != [] && b != [] && c != [] && a[0] == b[0] == c[0] {
      CmpStrTrans(a[1..], b[1..], c[1..]);
    }
  }

  /** Two keys compare `Equal` exactly when they are the same key. */
  lemma CmpKeyEqual(a: Key, b: Key)
    ensures CmpKey(a, b) == Equal <==> a == b
  {
    CmpStrEqual(a.name, b.name);
    if a.source.Some? && b.source.Some? {
      CmpStrEqual(a.source.value, b.source.value);
    }
  }

  /** Comparing the other way round gives the reversed ordering. */
  lemma CmpKeyReverse(a: Key, b: Key)
    ensures CmpKey(b, a) == CmpKey(a, b).Reverse()
  {
    CmpStrReverse(a.name, b.name);
    if a.source.Some? && b.source.Some? {
      CmpStrReverse(a.source.value, b.source.value);
    }
  }

  /** `Less` is transitive on keys. */
  lemma CmpKeyTrans(a: Key, b: Key, c: Key)
    requires CmpKey(a, b) == Less && CmpKey(b, c) == Less
    ensures CmpKey(a, c) == Less
  {
    CmpStrEqual(a.name, b.name);
    CmpStrEqual(b.name, c.name);
    var ab, bc := CmpStr(a.name, b.name), CmpStr(b.name, c.name);
    if ab == Less && bc == Less {
      CmpStrTrans(a.name, b.name, c.name);
    } else if ab == Equal && bc == Equal {
      if a.source.Some? && b.source.Some? && c.source.Some? {
        CmpStrEqual(a.source.value, b.source.value);
        CmpStrEqual(b.source.value, c.source.value);
        if CmpVersion(a.version, b.version) == Equal && CmpVersion(b.version, c.version) == Equal {
          CmpStrTrans(a.source.value, b.source.value, c.source.value);
        }
      }
    }
  }

  /** Any two keys are ordered one way or the other. */
  lemma KeyLeTotal(a: Key, b: Key)
    ensures KeyLe(a, b) || KeyLe(b, a)
  {
    CmpKeyReverse(a, b);
  }

  lemma KeyLeTrans(a: Key, b: Key, c: Key)
    requires KeyLe(a, b) && KeyLe(b, c)
    ensures KeyLe(a, c)
  {
    CmpKeyEqual(a, b);
    CmpKeyEqual(b, c);
    if CmpKey(a, b) == Less && CmpKey(b, c) == Less {
      CmpKeyTrans(a, b, c);
    }
  }

  /** A key not above a key strictly below `c` is strictly below `c`. */
  lemma KeyLeLessTrans(a: Key, b: Key, c: Key)
    requires KeyLe(a, b) && CmpKey(b, c) == Less
    ensures CmpKey(a, c) == Less
  {
    CmpKeyEqual(a, b);
    if CmpKey(a, b) == Less {
      CmpKeyTrans(a, b, c);
    }
  }

  /** A key not below a key strictly above `a` is strictly above `a`. */
  lemma LeGreaterTrans(b: Key, c: Key, a: Key)
    requires KeyLe(b, c) && CmpKey(b, a) == Greater
    ensures CmpKey(c, a) == Greater
  {
    CmpKeyReverse(a, b);
    CmpKeyReverse(a, c);
    CmpKeyEqual(b, c);
    if CmpKey(b, c) == Less {
      CmpKeyTrans(a, b, c);
    }
  }
}
