/**
 * The constructors of `UnixSocketAddr`: `from_path`, `from_abstract`,
 * `from_c_str` and the string dispatcher `new`. Each validates its input and
 * then fills a zeroed `sun_path` byte by byte. The functions `...Spec` state
 * what each returns; the methods do it the way the crate does, on a buffer,
 * and are proved to return exactly that.
 */
module Constructors {
  import opened Platform
  import opened Errors
  import opened UnixAddr

  // ---------------------------------------------------------------------------
  // What the constructors build
  // ---------------------------------------------------------------------------

  /**
   * The pathname encoding: the path at the start of `sun_path`, zeros after
   * it, and a length that takes in one terminating NUL when there is room.
   */
  function PathEncoding(p: Layout, path: seq<Byte>): UnixSocketAddr
    requires p.Valid() && |path| <= p.pathCap
  {
    UnixSocketAddr(
      SockaddrUn(p.afUnix, path + Zeros(p.pathCap - |path|)),
      p.PathOffset() + |path| + (if |path| < p.pathCap then 1 else 0))
  }

  /** The abstract encoding: a NUL marker, then the name, not terminated. */
  function AbstractEncoding(p: Layout, name: seq<Byte>): UnixSocketAddr
    requires p.Valid() && |name| < p.pathCap
  {
    UnixSocketAddr(
      SockaddrUn(p.afUnix, [NUL] + name + Zeros(p.pathCap - 1 - |name|)),
      p.PathOffset() + 1 + |name|)
  }

  /** `from_path()`: empty, then too long, then an embedded NUL, are refused in that order. */
  function FromPathSpec(p: Layout, path: seq<Byte>): Result<UnixSocketAddr>
    requires p.Valid()
  {
    if |path| == 0 then Err(NotFound)
    else if |path| > p.pathCap then Err(InvalidInput)
    else if NUL in path then Err(InvalidInput)
    else Ok(PathEncoding(p, path))
  }

  /** `from_abstract()`: refused outright where the namespace does not exist, then by length. */
  function FromAbstractSpec(p: Layout, name: seq<Byte>): Result<UnixSocketAddr>
    requires p.Valid()
  {
    if !HasAbstractAddresses(p) then Err(AddrNotAvailable)
    else if |name| > MaxAbstractLen(p) then Err(InvalidInput)
    else Ok(AbstractEncoding(p, name))
  }

  /** `from_c_str()`: the bytes of a `CStr` (never holding a NUL); empty means unnamed. */
  function FromCStrSpec(p: Layout, path: seq<Byte>): Result<UnixSocketAddr>
    requires p.Valid() && NUL !in path
  {
    if |path| == 0 then Ok(NewUnspecified(p))
    else if |path| > p.pathCap then Err(InvalidInput)
    else Ok(PathEncoding(p, path))
  }

  /** `new()`: a leading `'@'` or NUL selects an abstract name, empty is unnamed, the rest are paths. */
  function NewSpec(p: Layout, addr: seq<Byte>): Result<UnixSocketAddr>
    requires p.Valid()
  {
    if |addr| == 0 then Ok(NewUnspecified(p))
    else if addr[0] == AT || addr[0] == NUL then FromAbstractSpec(p, addr[1..])
    else FromPathSpec(p, addr)
  }

  // ---------------------------------------------------------------------------
  // The constructors, filling a zeroed buffer
  // ---------------------------------------------------------------------------

  /**
   * The copy loop shared by the constructors:
   * `sun_path[at..].iter_mut().zip(src)` over a zeroed `sun_path` of
   * `capacity` bytes, for a source that the caller has checked fits.
   */
  method ZeroedCopy(capacity: nat, at: nat, src: seq<Byte>) returns (sunPath: seq<Byte>)
    requires at + |src| <= capacity
    ensures |sunPath| == capacity
    ensures forall k :: 0 <= k < capacity ==> sunPath[k] == if at <= k < at + |src| then src[k - at] else NUL
  {
    var buf := new Byte[capacity](_ => NUL);
    for i := 0 to |src|
      invariant forall k :: 0 <= k < capacity ==> buf[k] == if at <= k < at + i then src[k - at] else NUL
    {
      buf[at + i] := src[i];
    }
    sunPath := buf[..];
  }

  /** `path.iter().any(|&b| b == b'\0')`: whether a NUL byte occurs. */
  method AnyNul(path: seq<Byte>) returns (found: bool)
    ensures found <==> NUL in path
  {
    found := false;
    var i := 0;
    while i < |path| && !found
      invariant 0 <= i <= |path|
      invariant found <==> NUL in path[..i]
    {
      found := path[i] == NUL;
      i := i + 1;
    }
    assert !found ==> path[..i] == path;
  }

  method FromPath(p: Layout, path: seq<Byte>) returns (r: Result<UnixSocketAddr>)
    requires p.Valid()
    ensures r == FromPathSpec(p, path)
    ensures r.Ok? ==> r.value.WellFormed(p) && View(p, r.value) == Path(path)
  {
    var capacity := p.pathCap;
    if |path| == 0 {
      return Err(NotFound);
    } else if |path| > capacity {
      return Err(InvalidInput);
    }
    var hasNul := AnyNul(path);
    if hasNul {
      return Err(InvalidInput);
    }
    var sunPath := ZeroedCopy(capacity, 0, path);
    assert sunPath == path + Zeros(capacity - |path|);
    var len: SockLen := p.PathOffset() + |path|;
    if |path| < capacity {
      len := len + 1;  // room for a terminating NUL
    }
    r := Ok(UnixSocketAddr(SockaddrUn(p.afUnix, sunPath), len));
    PathEncodingView(p, path);
  }

  method FromAbstract(p: Layout, name: seq<Byte>) returns (r: Result<UnixSocketAddr>)
    requires p.Valid()
    ensures r == FromAbstractSpec(p, name)
    ensures r.Ok? ==> r.value.WellFormed(p) && View(p, r.value) == Abstract(name)
  {
    if !HasAbstractAddresses(p) {
      return Err(AddrNotAvailable);
    } else if |name| > MaxAbstractLen(p) {
      return Err(InvalidInput);
    }
    var sunPath := ZeroedCopy(p.pathCap, 1, name);
    assert sunPath == [NUL] + name + Zeros(p.pathCap - 1 - |name|);
    var len: SockLen := p.PathOffset() + 1 + |name|;
    r := Ok(UnixSocketAddr(SockaddrUn(p.afUnix, sunPath), len));
    AbstractEncodingView(p, name);
  }

  method FromCStr(p: Layout, path: seq<Byte>) returns (r: Result<UnixSocketAddr>)
    requires p.Valid() && NUL !in path
    ensures r == FromCStrSpec(p, path)
    ensures r.Ok? ==> r.value.WellFormed(p)
    ensures r.Ok? ==> View(p, r.value) == if path == [] then Unnamed else Path(path)
  {
    var capacity := p.pathCap;
    if |path| == 0 {
      return Ok(NewUnspecified(p));
    } else if |path| > capacity {
      return Err(InvalidInput);
    }
    var sunPath := ZeroedCopy(capacity, 0, path);
    assert sunPath == path + Zeros(capacity - |path|);
    var len: SockLen := p.PathOffset() + |path|;
    if |path| < capacity {
      len := len + 1;
    }
    r := Ok(UnixSocketAddr(SockaddrUn(p.afUnix, sunPath), len));
    PathEncodingView(p, path);
  }

  method New(p: Layout, addr: seq<Byte>) returns (r: Result<UnixSocketAddr>)
    requires p.Valid()
    ensures r == NewSpec(p, addr)
    ensures r.Ok? ==> r.value.WellFormed(p) && EqBytes(p, r.value, addr) == (addr == [] || addr[0] != AT)
  {
    if |addr| == 0 {
      r := Ok(NewUnspecified(p));
    } else if addr[0] == AT || addr[0] == NUL {
      r := FromAbstract(p, addr[1..]);
    } else {
      r := FromPath(p, addr);
    }
    NewMatchesBytes(p, addr);
  }

  // ---------------------------------------------------------------------------
  // What the encodings mean
  // ---------------------------------------------------------------------------

  /**
   * A non-empty NUL-free path that fits is read back as exactly that path,
   * with a length that stays within the structure.
   */
  lemma PathEncodingView(p: Layout, path: seq<Byte>)
    requires p.Valid() && 0 < |path| <= p.pathCap && NUL !in path
    ensures PathEncoding(p, path).WellFormed(p)
    ensures View(p, PathEncoding(p, path)) == Path(path)
    ensures IsPath(p, PathEncoding(p, path))
  {
    var a := PathEncoding(p, path);
    var s := a.addr.sunPath;
    var n := a.len - p.PathOffset();
    assert s[0] == path[0] != NUL;
    if |path| < p.pathCap {
      assert s[..n][n - 1] == s[|path|] == NUL;
      assert s[..n][..n - 1] == path;
    } else {
      assert s[..n][n - 1] == path[|path| - 1] != NUL;
      assert s[..n] == path;
    }
  }

  /** A name that fits is read back as exactly that abstract name. */
  lemma AbstractEncodingView(p: Layout, name: seq<Byte>)
    requires p.Valid() && |name| < p.pathCap
    ensures AbstractEncoding(p, name).WellFormed(p)
    ensures View(p, AbstractEncoding(p, name)) == Abstract(name)
    ensures p.hasAbstract ==> IsAbstract(p, AbstractEncoding(p, name))
  {
    var a := AbstractEncoding(p, name);
    var n := a.len - p.PathOffset();
    assert a.addr.sunPath[1..n] == name;
  }

  /**
   * `from_path` succeeds exactly on non-empty NUL-free paths of at most
   * `max_path_len()` bytes, and then yields that path.
   */
  lemma FromPathOutcome(p: Layout, path: seq<Byte>)
    requires p.Valid()
    ensures FromPathSpec(p, path).Ok? <==> 0 < |path| <= MaxPathLen(p) && NUL !in path
    ensures FromPathSpec(p, path).Ok? ==>
      FromPathSpec(p, path).value.WellFormed(p) && View(p, FromPathSpec(p, path).value) == Path(path)
  {
    if FromPathSpec(p, path).Ok? {
      PathEncodingView(p, path);
    }
  }

  /**
   * `from_abstract` fails with AddrNotAvailable on every name where the
   * namespace is missing; elsewhere it succeeds exactly on names of at most
   * `max_abstract_len()` bytes and yields that name.
   */
  lemma FromAbstractOutcome(p: Layout, name: seq<Byte>)
    requires p.Valid()
    ensures !p.hasAbstract ==> FromAbstractSpec(p, name) == Err(AddrNotAvailable)
    ensures FromAbstractSpec(p, name).Ok? <==> p.hasAbstract && |name| <= MaxAbstractLen(p)
    ensures FromAbstractSpec(p, name).Ok? ==>
      FromAbstractSpec(p, name).value.WellFormed(p) && View(p, FromAbstractSpec(p, name).value) == Abstract(name)
  {
    if FromAbstractSpec(p, name).Ok? {
      AbstractEncodingView(p, name);
    }
  }

  /**
   * `from_c_str` builds what `from_path` builds for every non-empty input; on
   * the empty input it yields the unnamed address where `from_path` fails
   * with NotFound.
   */
  lemma FromCStrAgreesWithFromPath(p: Layout, path: seq<Byte>)
    requires p.Valid() && NUL !in path
    ensures path != [] ==> FromCStrSpec(p, path) == FromPathSpec(p, path)
    ensures path == [] ==> FromCStrSpec(p, path) == Ok(NewUnspecified(p)) && FromPathSpec(p, path) == Err(NotFound)
  {
  }

  /**
   * What `new` builds, by the first byte of its input: the unnamed address,
   * an abstract address named by the rest, or a path address of the whole.
   */
  lemma NewClassifies(p: Layout, addr: seq<Byte>)
    requires p.Valid()
    ensures addr == [] ==> NewSpec(p, addr) == Ok(NewUnspecified(p))
    ensures NewSpec(p, addr).Ok? ==> NewSpec(p, addr).value.WellFormed(p)
    ensures NewSpec(p, addr).Ok? && addr != [] && (addr[0] == AT || addr[0] == NUL) ==>
      View(p, NewSpec(p, addr).value) == Abstract(addr[1..])
    ensures NewSpec(p, addr).Ok? && addr != [] && addr[0] != AT && addr[0] != NUL ==>
      View(p, NewSpec(p, addr).value) == Path(addr)
    ensures addr != [] && (addr[0] == AT || addr[0] == NUL) && !p.hasAbstract ==>
      NewSpec(p, addr) == Err(AddrNotAvailable)
  {
    if addr != [] {
      if addr[0] == AT || addr[0] == NUL {
        FromAbstractOutcome(p, addr[1..]);
      } else {
        FromPathOutcome(p, addr);
      }
    }
  }

  /**
   * An address made by `new` compares equal to the bytes it was made from,
   * unless they spelled an abstract name with `'@'` (comparison accepts only
   * the NUL spelling).
   */
  lemma NewMatchesBytes(p: Layout, addr: seq<Byte>)
    requires p.Valid()
    ensures NewSpec(p, addr).Ok? ==>
      NewSpec(p, addr).value.WellFormed(p) &&
      (EqBytes(p, NewSpec(p, addr).value, addr) <==> addr == [] || addr[0] != AT)
  {
    NewClassifies(p, addr);
    if NewSpec(p, addr).Ok? && addr != [] {
      EqBytesMeaning(p, NewSpec(p, addr).value, addr);
      if addr[0] == NUL {
        assert addr == [NUL] + addr[1..];
      }
    }
  }

  /**
   * The examples in the documentation of `new`: `"@abstract"` and
   * `"\0abstract"` are abstract where supported and errors elsewhere,
   * `"./@path"` is a relative path, and `""` is unnamed.
   */
  lemma NewDocumentedExamples(p: Layout)
    requires p.Valid() && p.pathCap > 9
    ensures p.hasAbstract ==> NewSpec(p, Ascii("@abstract")).Ok? && IsAbstract(p, NewSpec(p, Ascii("@abstract")).value)
    ensures p.hasAbstract ==> NewSpec(p, Ascii("\0abstract")).Ok? && IsAbstract(p, NewSpec(p, Ascii("\0abstract")).value)
    ensures !p.hasAbstract ==> NewSpec(p, Ascii("@abstract")).Err? && NewSpec(p, Ascii("\0abstract")).Err?
    ensures NewSpec(p, Ascii("./@path")).Ok? && IsRelativePath(p, NewSpec(p, Ascii("./@path")).value)
    ensures NewSpec(p, []).Ok? && IsUnnamed(p, NewSpec(p, []).value)
  {
    var dotted := Ascii("./@path");
    assert NUL !in dotted by {
      forall i | 0 <= i < |dotted| ensures dotted[i] != NUL { }
    }
    PathEncodingView(p, dotted);
    var at := Ascii("@abstract");
    var zero := Ascii("\0abstract");
    if p.hasAbstract {
      AbstractEncodingView(p, at[1..]);
      AbstractEncodingView(p, zero[1..]);
    }
  }
}
