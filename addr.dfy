/**
 * The Unix-domain socket address value (`UnixSocketAddr`): a native
 * `sockaddr_un` paired with the number of its bytes in use, the view that
 * classifies it as unnamed, pathname or abstract, and the predicates,
 * equality and hashing defined on top of that view.
 */
module UnixAddr {
  import opened Platform

  /** The native structure: the family tag and the fixed-size `sun_path`. */
  datatype SockaddrUn = SockaddrUn(sunFamily: nat, sunPath: seq<Byte>)

  /** `UnixSocketAddr`: `len` counts the bytes of `addr` in use, family tag included. */
  datatype UnixSocketAddr = UnixSocketAddr(addr: SockaddrUn, len: SockLen)
  {
    /** `sun_path` has the platform's fixed size (a property of the C type). */
    predicate Shaped(p: Layout) {
      |addr.sunPath| == p.pathCap
    }

    /** The documented field invariant: `len` never exceeds `size_of::<sockaddr_un>()`. */
    predicate WellFormed(p: Layout) {
      Shaped(p) && len <= p.structSize
    }
  }

  /** `UnixSocketAddrRef`: the three kinds of address sharing one buffer. */
  datatype UnixSocketAddrRef =
    | Unnamed
    | Path(path: seq<Byte>)
    | Abstract(name: seq<Byte>)

  /** `n` zero bytes, as left by `mem::zeroed()`. */
  function Zeros(n: nat): (z: seq<Byte>)
    ensures |z| == n
    ensures forall i :: 0 <= i < n ==> z[i] == NUL
  {
    seq(n, _ => NUL)
  }

  /** `has_abstract_addresses()`: true on Linux (and Android), false elsewhere. */
  function HasAbstractAddresses(p: Layout): (b: bool)
    ensures p == Linux ==> b
    ensures p == MacOS ==> !b
  {
    p.hasAbstract
  }

  /**
   * `new_unspecified()`: a zeroed structure tagged AF_UNIX whose length is the
   * size of the family tag, which on BSDs is less than the path offset.
   */
  function NewUnspecified(p: Layout): (a: UnixSocketAddr)
    requires p.Valid()
    ensures a.WellFormed(p) && a.addr.sunFamily == p.afUnix
    ensures a.addr.sunPath == Zeros(p.pathCap)
    ensures a.len <= p.PathOffset()
    ensures View(p, a) == Unnamed && IsUnnamed(p, a)
  {
    UnixSocketAddr(SockaddrUn(p.afUnix, Zeros(p.pathCap)), p.familySize)
  }

  /** `max_path_len()`: the size of `sun_path`, with no byte set aside for a NUL. */
  function MaxPathLen(p: Layout): (n: nat)
    requires p.Valid()
    ensures n == |NewUnspecified(p).addr.sunPath|
  {
    p.pathCap
  }

  /** `max_abstract_len()`: one byte fewer, for the leading NUL; also where abstract names are unsupported. */
  function MaxAbstractLen(p: Layout): (n: nat)
    requires p.Valid()
    ensures MaxPathLen(p) - n == 1
  {
    p.pathCap - 1
  }

  /**
   * `UnixSocketAddrRef::from`: with `n = len - offset` bytes of name in use,
   * no bytes is Unnamed, a leading NUL marks an abstract name (the bytes after
   * it), and anything else is a path without at most one trailing NUL. It reads
   * `sun_path` only below `n`, and does not look at the platform's abstract
   * support.
   */
  function View(p: Layout, a: UnixSocketAddr): (r: UnixSocketAddrRef)
    requires p.Valid() && a.WellFormed(p)
    ensures r.Unnamed? <==> a.len <= p.PathOffset()
    ensures r.Abstract? <==> a.len > p.PathOffset() && a.addr.sunPath[0] == NUL
    ensures r.Path? ==> 0 < |r.path| <= a.len - p.PathOffset() && r.path[0] != NUL
    ensures r.Path? ==> r.path <= a.addr.sunPath
    ensures r.Path? ==> |r.path| >= a.len - p.PathOffset() - 1
    ensures r.Path? ==> (|r.path| < a.len - p.PathOffset() <==> a.addr.sunPath[a.len - p.PathOffset() - 1] == NUL)
    ensures r.Abstract? ==> |r.name| < p.pathCap
    ensures r.Abstract? ==> a.addr.sunPath == a.addr.sunPath[..1] + r.name + a.addr.sunPath[a.len - p.PathOffset()..]
  {
    var nameLen := a.len - p.PathOffset();
    if nameLen <= 0 then
      Unnamed
    else if a.addr.sunPath[0] == NUL then
      Abstract(a.addr.sunPath[1..nameLen])
    else
      var slice := a.addr.sunPath[..nameLen];
      if slice[nameLen - 1] == NUL then Path(slice[..nameLen - 1]) else Path(slice)
  }

  /** `is_unnamed()`: without the abstract namespace an all-zero path also counts as unnamed. */
  predicate IsUnnamed(p: Layout, a: UnixSocketAddr): (b: bool)
    requires p.Valid() && a.Shaped(p)
    ensures a.WellFormed(p) ==> (b <==> View(p, a).Unnamed? || (!HasAbstractAddresses(p) && View(p, a).Abstract?))
  {
    if HasAbstractAddresses(p) then a.len <= p.PathOffset()
    else a.len <= p.PathOffset() || a.addr.sunPath[0] == NUL
  }

  /** `is_abstract()`: always false without the abstract namespace. */
  predicate IsAbstract(p: Layout, a: UnixSocketAddr): (b: bool)
    requires p.Valid() && a.Shaped(p)
    ensures b ==> HasAbstractAddresses(p)
    ensures a.WellFormed(p) ==> (b <==> HasAbstractAddresses(p) && View(p, a).Abstract?)
  {
    if HasAbstractAddresses(p) then a.len > p.PathOffset() && a.addr.sunPath[0] == NUL
    else false
  }

  /** `is_absolute_path()`. */
  predicate IsAbsolutePath(p: Layout, a: UnixSocketAddr): (b: bool)
    requires p.Valid() && a.Shaped(p)
    ensures b ==> IsPath(p, a)
    ensures a.WellFormed(p) ==> (b <==> View(p, a).Path? && View(p, a).path[0] == SLASH)
  {
    a.len > p.PathOffset() && a.addr.sunPath[0] == SLASH
  }

  /** `is_relative_path()`. */
  predicate IsRelativePath(p: Layout, a: UnixSocketAddr): (b: bool)
    requires p.Valid() && a.Shaped(p)
    ensures b ==> IsPath(p, a) && !IsAbsolutePath(p, a)
    ensures a.WellFormed(p) ==> (b <==> View(p, a).Path? && View(p, a).path[0] != SLASH)
  {
    a.len > p.PathOffset() && a.addr.sunPath[0] != NUL && a.addr.sunPath[0] != SLASH
  }

  /** `is_path()`. */
  predicate IsPath(p: Layout, a: UnixSocketAddr): (b: bool)
    requires p.Valid() && a.Shaped(p)
    ensures a.WellFormed(p) ==> (b <==> View(p, a).Path?)
  {
    a.len > p.PathOffset() && a.addr.sunPath[0] != NUL
  }

  /** `PartialEq for UnixSocketAddr`: equal views. */
  predicate Eq(p: Layout, a: UnixSocketAddr, b: UnixSocketAddr): (eq: bool)
    requires p.Valid() && a.WellFormed(p) && b.WellFormed(p)
    ensures a == b ==> eq
    ensures eq ==> (IsPath(p, a) <==> IsPath(p, b)) && (a.len <= p.PathOffset() <==> b.len <= p.PathOffset())
  {
    View(p, a) == View(p, b)
  }

  /** `Hash for UnixSocketAddr`: the view is fed to the hasher, modelled as any function of the view. */
  function Hash<H>(p: Layout, a: UnixSocketAddr, hasher: UnixSocketAddrRef -> H): (h: H)
    requires p.Valid() && a.WellFormed(p)
    ensures a.len <= p.PathOffset() ==> h == hasher(Unnamed)
  {
    hasher(View(p, a))
  }

  /**
   * `PartialEq<[u8]> for UnixSocketAddr`: a path matches its bytes, an
   * abstract name matches only a NUL followed by the name, and the unnamed
   * address matches only the empty slice.
   */
  predicate EqBytes(p: Layout, a: UnixSocketAddr, unescaped: seq<Byte>): (eq: bool)
    requires p.Valid() && a.WellFormed(p)
    ensures a.len <= p.PathOffset() ==> (eq <==> unescaped == [])
    ensures eq && unescaped != [] ==> (unescaped[0] == NUL <==> View(p, a).Abstract?)
  {
    match View(p, a)
    case Path(path) => unescaped != [] && path == unescaped
    case Abstract(name) => unescaped != [] && unescaped[0] == NUL && name == unescaped[1..]
    case Unnamed => unescaped == []
  }

  /** `into_raw()` and `as_raw()`: the structure and the length, as they are. */
  function IntoRaw(a: UnixSocketAddr): (raw: (SockaddrUn, SockLen))
    ensures UnixSocketAddr(raw.0, raw.1) == a
  {
    (a.addr, a.len)
  }

  /**
   * `from_raw_unchecked()`: no check at all; the caller promises that `len`
   * fits and the family is AF_UNIX. Only under that promise is the result
   * well formed.
   */
  function FromRawUnchecked(p: Layout, addr: SockaddrUn, len: SockLen): (a: UnixSocketAddr)
    ensures IntoRaw(a) == (addr, len)
    ensures |addr.sunPath| == p.pathCap && len <= p.structSize ==> a.WellFormed(p)
  {
    UnixSocketAddr(addr, len)
  }

  // ---------------------------------------------------------------------------
  // Properties of the view, the predicates and equality
  // ---------------------------------------------------------------------------

  /**
   * The `is_*` predicates against the view. `is_path` always agrees with the
   * view. With the abstract namespace, `is_unnamed` and `is_abstract` agree
   * with it too; without it, `is_abstract` never holds and `is_unnamed` holds
   * of everything that is not a path, abstract-looking buffers included.
   */
  lemma PredicatesMatchView(p: Layout, a: UnixSocketAddr)
    requires p.Valid() && a.WellFormed(p)
    ensures IsPath(p, a) <==> View(p, a).Path?
    ensures p.hasAbstract ==> (IsUnnamed(p, a) <==> View(p, a).Unnamed?)
    ensures p.hasAbstract ==> (IsAbstract(p, a) <==> View(p, a).Abstract?)
    ensures !p.hasAbstract ==> !IsAbstract(p, a) && (IsUnnamed(p, a) <==> !View(p, a).Path?)
    ensures IsAbsolutePath(p, a) <==> View(p, a).Path? && View(p, a).path[0] == SLASH
    ensures IsRelativePath(p, a) <==> View(p, a).Path? && View(p, a).path[0] != SLASH
  {
    if a.len > p.PathOffset() && a.addr.sunPath[0] != NUL {
      var r := View(p, a);
      assert r.path[0] == a.addr.sunPath[0];
    }
  }

  /**
   * Exactly one of `is_unnamed`, `is_abstract` and `is_path` holds, on every
   * platform and for every length (well formed or not); a path is absolute or
   * relative and not both.
   */
  lemma PredicatesPartition(p: Layout, a: UnixSocketAddr)
    requires p.Valid() && a.Shaped(p)
    ensures IsUnnamed(p, a) || IsAbstract(p, a) || IsPath(p, a)
    ensures !(IsUnnamed(p, a) && IsAbstract(p, a))
    ensures !(IsUnnamed(p, a) && IsPath(p, a))
    ensures !(IsAbstract(p, a) && IsPath(p, a))
    ensures IsPath(p, a) <==> IsAbsolutePath(p, a) || IsRelativePath(p, a)
    ensures !(IsAbsolutePath(p, a) && IsRelativePath(p, a))
  {
  }

  /**
   * The view reads only the `len - offset` bytes in use: two addresses with the
   * same length that agree on those bytes have the same view, whatever lies
   * past them. Equality and hashing inherit this.
   */
  lemma ViewReadsOnlyUsedBytes(p: Layout, a: UnixSocketAddr, b: UnixSocketAddr)
    requires p.Valid() && a.WellFormed(p) && b.WellFormed(p)
    requires a.len == b.len
    requires a.len > p.PathOffset() ==>
      a.addr.sunPath[..a.len - p.PathOffset()] == b.addr.sunPath[..b.len - p.PathOffset()]
    ensures View(p, a) == View(p, b)
    ensures Eq(p, a, b)
  {
    var n := a.len - p.PathOffset();
    if n > 0 {
      assert a.addr.sunPath[0] == a.addr.sunPath[..n][0] == b.addr.sunPath[..n][0] == b.addr.sunPath[0];
      assert a.addr.sunPath[1..n] == a.addr.sunPath[..n][1..];
      assert b.addr.sunPath[1..n] == b.addr.sunPath[..n][1..];
    }
  }

  /**
   * A path address compares equal to the same address with its length
   * extended over one trailing NUL: the optional terminator is not part of
   * the path.
   */
  lemma EqIgnoresTrailingNul(p: Layout, a: UnixSocketAddr)
    requires p.Valid() && a.WellFormed(p)
    requires View(p, a).Path? && a.len < p.structSize
    requires a.addr.sunPath[a.len - p.PathOffset() - 1] != NUL
    requires a.addr.sunPath[a.len - p.PathOffset()] == NUL
    ensures a.(len := a.len + 1).WellFormed(p)
    ensures Eq(p, a, a.(len := a.len + 1))
  {
    var n := a.len - p.PathOffset();
    var s := a.addr.sunPath;
    assert s[..n + 1][..n] == s[..n];
  }

  /** Equal addresses hash alike, for every hasher. */
  lemma HashAgreesWithEq<H>(p: Layout, a: UnixSocketAddr, b: UnixSocketAddr, hasher: UnixSocketAddrRef -> H)
    requires p.Valid() && a.WellFormed(p) && b.WellFormed(p)
    requires Eq(p, a, b)
    ensures Hash(p, a, hasher) == Hash(p, b, hasher)
  {
  }

  /**
   * What comparing with a byte slice means, kind by kind: a path matches only
   * its own bytes, an abstract name only a NUL followed by the name (never
   * the `'@'` spelling), the unnamed address only the empty slice.
   */
  lemma EqBytesMeaning(p: Layout, a: UnixSocketAddr, s: seq<Byte>)
    requires p.Valid() && a.WellFormed(p)
    ensures View(p, a).Path? ==> (EqBytes(p, a, s) <==> s == View(p, a).path)
    ensures View(p, a).Abstract? ==> (EqBytes(p, a, s) <==> s == [NUL] + View(p, a).name)
    ensures View(p, a).Abstract? && s != [] && s[0] == AT ==> !EqBytes(p, a, s)
    ensures View(p, a).Unnamed? ==> (EqBytes(p, a, s) <==> s == [])
  {
    if View(p, a).Abstract? && s != [] && s[0] == NUL {
      assert s == [NUL] + s[1..];
    }
  }

  /**
   * Exactly one trailing NUL is dropped from a path: with the bytes `'a', NUL,
   * NUL` in use, the path is `'a', NUL`.
   */
  lemma ViewDropsOneTrailingNul(p: Layout, a: UnixSocketAddr)
    requires p.Valid() && p.pathCap >= 3
    requires a == UnixSocketAddr(SockaddrUn(p.afUnix, [97 as Byte, NUL, NUL] + Zeros(p.pathCap - 3)), p.PathOffset() + 3)
    ensures View(p, a) == Path([97 as Byte, NUL])
  {
  }

  /** `into_raw` and `from_raw_unchecked` undo each other. */
  lemma RawUncheckedRoundTrip(p: Layout, a: UnixSocketAddr)
    ensures FromRawUnchecked(p, IntoRaw(a).0, IntoRaw(a).1) == a
  {
  }
}
