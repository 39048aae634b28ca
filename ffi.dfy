/**
 * Addresses that come back from the kernel: `new_from_ffi`, which wraps a
 * `getsockname`/`getpeername`/`accept`-style call and validates and
 * normalises what it wrote, and `from_raw`, which validates a pointer and a
 * length handed in by the caller.
 */
module Ffi {
  import opened Platform
  import opened Errors
  import opened UnixAddr
  import opened Constructors

  // ---------------------------------------------------------------------------
  // new_from_ffi
  // ---------------------------------------------------------------------------

  /**
   * What the wrapped call did: it failed, or it returned a value after leaving
   * some structure and some length behind in the buffers it was given.
   */
  datatype FfiOutcome<R> =
    | CallFailed(error: ErrorKind)
    | CallReturned(ret: R, addr: SockaddrUn, len: SockLen)

  /** What the call is given: the unspecified address with its length set to the whole structure. */
  function FfiStart(p: Layout): (a: UnixSocketAddr)
    requires p.Valid()
    ensures a.WellFormed(p) && a.len == p.structSize
    ensures a.addr.sunFamily == p.afUnix && a.addr.sunPath == Zeros(p.pathCap)
  {
    NewUnspecified(p).(len := p.structSize)
  }

  /**
   * The checks and the normalisation of `new_from_ffi`, applied to what the
   * call left behind. A truncated abstract name is refused; a path may be one
   * byte too long (the lost byte is taken to be its NUL) and is then clamped;
   * a shorter path gets a terminating NUL unless it already ends in one.
   */
  function NormalizeFfi<R>(p: Layout, out: FfiOutcome<R>): (r: Result<(R, UnixSocketAddr)>)
    requires p.Valid() && (out.CallReturned? ==> |out.addr.sunPath| == p.pathCap)
    ensures out.CallFailed? ==> r == Err(out.error)
    ensures out.CallReturned? && r.Err? ==> r.error == InvalidData
    ensures r.Ok? ==> out.CallReturned? && r.value.0 == out.ret
    ensures r.Ok? ==> r.value.1.Shaped(p) && r.value.1.addr.sunFamily == p.afUnix
  {
    match out
    case CallFailed(e) => Err(e)
    case CallReturned(ret, sa, len) =>
      var written := UnixSocketAddr(sa, len);
      var capacity := p.structSize;
      if sa.sunFamily != p.afUnix then Err(InvalidData)
      else if IsAbstract(p, written) then
        if len > capacity then Err(InvalidData) else Ok((ret, written))
      else if IsPath(p, written) then
        if len > capacity + 1 then Err(InvalidData)
        else if len >= capacity then Ok((ret, written.(len := capacity)))
        else if sa.sunPath[len - 1 - p.PathOffset()] != NUL then
          Ok((ret, UnixSocketAddr(sa.(sunPath := sa.sunPath[len - p.PathOffset() := NUL]), len + 1)))
        else Ok((ret, written))
      else Ok((ret, written))
  }

  /**
   * `new_from_ffi()`: `call` stands for the closure, which receives the
   * prepared structure and length and may leave anything in them.
   */
  method NewFromFfi<R>(p: Layout, call: (SockaddrUn, SockLen) -> FfiOutcome<R>) returns (r: Result<(R, UnixSocketAddr)>)
    requires p.Valid()
    requires call(FfiStart(p).addr, FfiStart(p).len).CallReturned? ==>
      |call(FfiStart(p).addr, FfiStart(p).len).addr.sunPath| == p.pathCap
    ensures r == NormalizeFfi(p, call(FfiStart(p).addr, FfiStart(p).len))
    ensures p.hasAbstract && r.Ok? ==> r.value.1.WellFormed(p)
  {
    var addr := NewUnspecified(p);
    var capacity: SockLen := p.structSize;
    addr := addr.(len := capacity);
    var out := call(addr.addr, addr.len);
    if out.CallFailed? {
      return Err(out.error);
    }
    if out.addr.sunFamily != p.afUnix {
      return Err(InvalidData);
    }
    var written := UnixSocketAddr(out.addr, out.len);
    var sunPath := new Byte[p.pathCap](i => if 0 <= i < |out.addr.sunPath| then out.addr.sunPath[i] else NUL);
    assert sunPath[..] == out.addr.sunPath;
    var len := out.len;
    if IsAbstract(p, written) {
      if len > capacity {
        return Err(InvalidData);
      }
    } else if IsPath(p, written) {
      if len > capacity + 1 {
        return Err(InvalidData);
      } else if len >= capacity {
        len := capacity;
      } else if sunPath[len - 1 - p.PathOffset()] != NUL {
        len := len + 1;
        sunPath[len - 1 - p.PathOffset()] := NUL;
      }
    }
    r := Ok((out.ret, UnixSocketAddr(SockaddrUn(out.addr.sunFamily, sunPath[..]), len)));
    if p.hasAbstract {
      FfiWellFormedWithAbstract(p, out);
    }
  }

  /**
   * The failures of `new_from_ffi`: the call's own error unchanged, or
   * InvalidData exactly for a foreign family, a truncated abstract name, or a
   * path more than one byte too long.
   */
  lemma FfiErrors<R>(p: Layout, out: FfiOutcome<R>)
    requires p.Valid() && (out.CallReturned? ==> |out.addr.sunPath| == p.pathCap)
    ensures out.CallFailed? ==> NormalizeFfi(p, out) == Err(out.error)
    ensures out.CallReturned? ==>
      var written := UnixSocketAddr(out.addr, out.len);
      (NormalizeFfi(p, out).Err? <==>
        out.addr.sunFamily != p.afUnix
        || (IsAbstract(p, written) && out.len > p.structSize)
        || (IsPath(p, written) && out.len > p.structSize + 1))
      && (NormalizeFfi(p, out).Err? ==> NormalizeFfi(p, out).error == InvalidData)
  {
  }

  /**
   * A successful `new_from_ffi` returns the call's value and what the call
   * wrote, except that a path's length is clamped to the structure or grown
   * by one over a NUL written just past the path; no other byte changes, and
   * a path shorter than the structure ends in NUL afterwards.
   */
  lemma FfiResult<R>(p: Layout, out: FfiOutcome<R>)
    requires p.Valid() && out.CallReturned? && |out.addr.sunPath| == p.pathCap
    requires NormalizeFfi(p, out).Ok?
    ensures
      var written := UnixSocketAddr(out.addr, out.len);
      var (ret, b) := NormalizeFfi(p, out).value;
      var k := out.len - p.PathOffset();
      && ret == out.ret
      && b.addr.sunFamily == p.afUnix && b.Shaped(p)
      && b.len == (if IsPath(p, written) && out.len >= p.structSize then p.structSize
                   else if IsPath(p, written) && out.addr.sunPath[k - 1] != NUL then out.len + 1
                   else out.len)
      && (forall i :: 0 <= i < p.pathCap && i != k ==> b.addr.sunPath[i] == out.addr.sunPath[i])
      && (b.addr.sunPath != out.addr.sunPath ==> 0 <= k < p.pathCap && b.addr.sunPath[k] == NUL)
      && (IsPath(p, written) ==> b.len <= p.structSize)
      && (IsPath(p, written) && b.len < p.structSize ==> b.addr.sunPath[b.len - p.PathOffset() - 1] == NUL)
  {
  }

  /** Where the abstract namespace exists, every address `new_from_ffi` returns is well formed. */
  lemma FfiWellFormedWithAbstract<R>(p: Layout, out: FfiOutcome<R>)
    requires p.Valid() && (out.CallReturned? ==> |out.addr.sunPath| == p.pathCap)
    requires p.hasAbstract && NormalizeFfi(p, out).Ok?
    ensures NormalizeFfi(p, out).value.1.WellFormed(p)
  {
    var written := UnixSocketAddr(out.addr, out.len);
    assert IsAbstract(p, written) || IsPath(p, written) || out.len <= p.PathOffset();
  }

  /**
   * Normalisation does not change the logical address: when the call reported
   * a length that fits, the returned address has the view of what the call
   * wrote.
   */
  lemma FfiKeepsView<R>(p: Layout, out: FfiOutcome<R>)
    requires p.Valid() && out.CallReturned? && |out.addr.sunPath| == p.pathCap
    requires out.len <= p.structSize && NormalizeFfi(p, out).Ok?
    ensures NormalizeFfi(p, out).value.1.WellFormed(p)
    ensures View(p, NormalizeFfi(p, out).value.1) == View(p, UnixSocketAddr(out.addr, out.len))
  {
    var written := UnixSocketAddr(out.addr, out.len);
    var b := NormalizeFfi(p, out).value.1;
    var n := out.len - p.PathOffset();
    var s := out.addr.sunPath;
    if IsPath(p, written) && out.len < p.structSize && s[n - 1] != NUL {
      var t := b.addr.sunPath;
      assert t == s[n := NUL];
      assert t[..n + 1][n] == NUL;
      assert t[..n + 1][..n] == s[..n];
      assert View(p, written) == Path(s[..n]);
      assert View(p, b) == Path(t[..n + 1][..n]);
    }
  }

  /**
   * A path that fills `sun_path` with no room for a NUL, reported with a
   * length one past the structure, is accepted, clamped to the structure and
   * read back whole.
   */
  lemma FfiClampsFullPath<R>(p: Layout, ret: R, path: seq<Byte>)
    requires p.Valid() && |path| == p.pathCap && NUL !in path
    ensures
      var out := CallReturned(ret, SockaddrUn(p.afUnix, path), p.structSize + 1);
      && NormalizeFfi(p, out) == Ok((ret, UnixSocketAddr(SockaddrUn(p.afUnix, path), p.structSize)))
      && View(p, NormalizeFfi(p, out).value.1) == Path(path)
  {
    assert path[0] != NUL;
    var a := UnixSocketAddr(SockaddrUn(p.afUnix, path), p.structSize);
    assert path[..p.pathCap] == path;
    assert path[p.pathCap - 1] != NUL;
  }

  /**
   * As written, without the abstract namespace a buffer whose first byte is
   * NUL is neither abstract nor a path, so its length is never bounded: a
   * call reporting one byte more than the structure yields an address whose
   * length exceeds it.
   */
  lemma FfiOverlongWithoutAbstract<R>(p: Layout, ret: R)
    requires p.Valid() && !p.hasAbstract
    ensures
      var out := CallReturned(ret, SockaddrUn(p.afUnix, Zeros(p.pathCap)), p.structSize + 1);
      NormalizeFfi(p, out).Ok? && !NormalizeFfi(p, out).value.1.WellFormed(p)
  {
  }

  /**
   * `new_from_ffi` with the length checked on every branch, as the field
   * invariant of `len` requires: it refuses an over-long length that the
   * original lets through, and otherwise agrees with it.
   */
  function NormalizeFfiChecked<R>(p: Layout, out: FfiOutcome<R>): (r: Result<(R, UnixSocketAddr)>)
    requires p.Valid() && (out.CallReturned? ==> |out.addr.sunPath| == p.pathCap)
    ensures r.Ok? ==> r.value.1.WellFormed(p)
    ensures r.Ok? ==> r == NormalizeFfi(p, out)
    ensures p.hasAbstract ==> r == NormalizeFfi(p, out)
    ensures r != NormalizeFfi(p, out) ==>
      r == Err(InvalidData) && NormalizeFfi(p, out).Ok? && NormalizeFfi(p, out).value.1.len > p.structSize
    ensures NormalizeFfi(p, out).Ok? && NormalizeFfi(p, out).value.1.len > p.structSize ==> r == Err(InvalidData)
  {
    var r := NormalizeFfi(p, out);
    if r.Ok? && r.value.1.len > p.structSize then
      Err(InvalidData)
    else
      r
  }

  // ---------------------------------------------------------------------------
  // from_raw
  // ---------------------------------------------------------------------------

  /** The `*const sockaddr` argument: null, or pointing at a whole structure. */
  datatype RawAddr = Null | Points(sockaddr: SockaddrUn)

  /**
   * `from_raw()` as written. After the checks it copies the `len` bytes that
   * start at `sun_path` into `sun_path` with `copy_from_slice`, which panics
   * unless the two lengths are equal, so only `len == max_path_len()` gets
   * through.
   */
  function FromRawSpec(p: Layout, raw: RawAddr, len: SockLen): (r: Outcome<Result<UnixSocketAddr>>)
    requires p.Valid() && (raw.Points? ==> |raw.sockaddr.sunPath| == p.pathCap)
    ensures raw.Null? ==> r == Returned(if len == 0 then Ok(NewUnspecified(p)) else Err(InvalidInput))
    ensures r.Panicked? ==> raw.Points? && p.PathOffset() <= len != p.pathCap
    ensures r.Returned? && r.result.Ok? ==> r.result.value.WellFormed(p) && r.result.value.addr.sunFamily == p.afUnix
  {
    if raw.Null? && len == 0 then Returned(Ok(NewUnspecified(p)))
    else if raw.Null? then Returned(Err(InvalidInput))
    else if len < p.PathOffset() then Returned(Err(InvalidInput))
    else if len > p.PathOffset() + MaxPathLen(p) then Returned(Err(InvalidInput))
    else if raw.sockaddr.sunFamily != p.afUnix then Returned(Err(InvalidData))
    else if len != p.pathCap then Panicked
    else Returned(Ok(UnixSocketAddr(SockaddrUn(p.afUnix, raw.sockaddr.sunPath), len)))
  }

  method FromRaw(p: Layout, raw: RawAddr, len: SockLen) returns (r: Outcome<Result<UnixSocketAddr>>)
    requires p.Valid() && (raw.Points? ==> |raw.sockaddr.sunPath| == p.pathCap)
    ensures r == FromRawSpec(p, raw, len)
    ensures r.Returned? && r.result.Ok? ==> r.result.value.WellFormed(p)
  {
    var copy := NewUnspecified(p);
    if raw.Null? && len == 0 {
      return Returned(Ok(NewUnspecified(p)));
    } else if raw.Null? {
      return Returned(Err(InvalidInput));
    } else if len < p.PathOffset() {
      return Returned(Err(InvalidInput));
    } else if len > p.PathOffset() + MaxPathLen(p) {
      return Returned(Err(InvalidInput));
    } else if raw.sockaddr.sunFamily != p.afUnix {
      return Returned(Err(InvalidData));
    }
    // copy_from_slice: a source of `len` bytes into the `sun_path` array
    if len != p.pathCap {
      return Panicked;
    }
    var sunPath := new Byte[p.pathCap](_ => NUL);
    var i := 0;
    while i < len
      invariant 0 <= i <= len
      invariant forall k :: 0 <= k < i ==> sunPath[k] == raw.sockaddr.sunPath[k]
    {
      sunPath[i] := raw.sockaddr.sunPath[i];
      i := i + 1;
    }
    assert sunPath[..] == raw.sockaddr.sunPath;
    r := Returned(Ok(UnixSocketAddr(SockaddrUn(copy.addr.sunFamily, sunPath[..]), len)));
  }

  /**
   * The outcomes of `from_raw`: null with length zero is the unnamed
   * address; a null pointer, a length below the offset or past the structure
   * are InvalidInput; a foreign family is InvalidData; past the checks every
   * length but `max_path_len()` panics.
   */
  lemma FromRawOutcome(p: Layout, raw: RawAddr, len: SockLen)
    requires p.Valid() && (raw.Points? ==> |raw.sockaddr.sunPath| == p.pathCap)
    ensures raw.Null? && len == 0 ==> FromRawSpec(p, raw, len) == Returned(Ok(NewUnspecified(p)))
    ensures FromRawSpec(p, raw, len) == Returned(Err(InvalidInput)) <==>
      (raw.Null? && len != 0) || (raw.Points? && (len < p.PathOffset() || len > p.structSize))
    ensures FromRawSpec(p, raw, len) == Returned(Err(InvalidData)) <==>
      raw.Points? && p.PathOffset() <= len <= p.structSize && raw.sockaddr.sunFamily != p.afUnix
    ensures FromRawSpec(p, raw, len) == Panicked <==>
      raw.Points? && p.PathOffset() <= len <= p.structSize && raw.sockaddr.sunFamily == p.afUnix && len != p.pathCap
    ensures FromRawSpec(p, raw, len).Returned? && FromRawSpec(p, raw, len).result.Ok? ==>
      FromRawSpec(p, raw, len).result.value.WellFormed(p)
  {
  }

  /**
   * As written, handing `from_raw` the structure and length of an address of
   * its own type panics whenever the length differs from `max_path_len()`.
   */
  lemma FromRawPanicsOnOwnAddresses(p: Layout, a: UnixSocketAddr)
    requires p.Valid() && a.WellFormed(p) && a.addr.sunFamily == p.afUnix
    requires p.PathOffset() <= a.len && a.len != p.pathCap
    ensures FromRawSpec(p, Points(IntoRaw(a).0), IntoRaw(a).1) == Panicked
  {
  }

  /**
   * On Linux, `from_raw` of what `as_raw` gives for `from_path("/x")` (five
   * bytes: the family tag, `/`, `x` and a NUL) panics.
   */
  lemma FromRawPanicsOnLinuxPath()
    ensures FromPathSpec(Linux, Ascii("/x")).Ok?
    ensures
      var a := FromPathSpec(Linux, Ascii("/x")).value;
      a.len == 5 && FromRawSpec(Linux, Points(IntoRaw(a).0), IntoRaw(a).1) == Panicked
  {
    var slashX := Ascii("/x");
    assert NUL !in slashX by {
      assert slashX == [SLASH, 0x78];
    }
    PathEncodingView(Linux, slashX);
  }

  /**
   * `from_raw()` as evidently intended: the checks are the same, and the
   * `len - offset` bytes in use are copied into the start of a zeroed
   * `sun_path`. It never panics and its results are well formed.
   */
  function FromRawFixed(p: Layout, raw: RawAddr, len: SockLen): (r: Result<UnixSocketAddr>)
    requires p.Valid() && (raw.Points? ==> |raw.sockaddr.sunPath| == p.pathCap)
    ensures r.Ok? ==> r.value.WellFormed(p) && r.value.addr.sunFamily == p.afUnix
    ensures FromRawSpec(p, raw, len).Returned? && FromRawSpec(p, raw, len).result.Err? ==>
      r == FromRawSpec(p, raw, len).result
  {
    if raw.Null? && len == 0 then Ok(NewUnspecified(p))
    else if raw.Null? then Err(InvalidInput)
    else if len < p.PathOffset() then Err(InvalidInput)
    else if len > p.PathOffset() + MaxPathLen(p) then Err(InvalidInput)
    else if raw.sockaddr.sunFamily != p.afUnix then Err(InvalidData)
    else
      var n := len - p.PathOffset();
      Ok(UnixSocketAddr(SockaddrUn(p.afUnix, raw.sockaddr.sunPath[..n] + Zeros(p.pathCap - n)), len))
  }

  /**
   * The intended round trip: every AF_UNIX address whose length reaches the
   * offset comes back from the corrected `from_raw` with the same length and
   * equal to itself.
   */
  lemma FromRawFixedRoundTrip(p: Layout, a: UnixSocketAddr)
    requires p.Valid() && a.WellFormed(p) && a.addr.sunFamily == p.afUnix
    requires p.PathOffset() <= a.len
    ensures FromRawFixed(p, Points(IntoRaw(a).0), IntoRaw(a).1).Ok?
    ensures FromRawFixed(p, Points(IntoRaw(a).0), IntoRaw(a).1).value.len == a.len
    ensures Eq(p, FromRawFixed(p, Points(IntoRaw(a).0), IntoRaw(a).1).value, a)
  {
    var b := FromRawFixed(p, Points(a.addr), a.len).value;
    var n := a.len - p.PathOffset();
    assert b.addr.sunPath[..n] == a.addr.sunPath[..n];
    ViewReadsOnlyUsedBytes(p, b, a);
  }
}
