# Unix-domain socket addresses of the `uds` crate, in Dafny

This project models the address value of the Rust crate `uds` (`src/addr.rs`). A
`UnixSocketAddr` is a native `sockaddr_un`, made of a family tag and a fixed-size
`sun_path` byte array, together with `len`, the number of bytes in use. Three kinds
of address share that one buffer:

- **unnamed**: no name bytes in use;
- **path**: a filesystem name, optionally followed by one NUL;
- **abstract**: a leading NUL marker, then a name of arbitrary bytes. This is Linux
  and Android only.

The model covers:

- the constructors `new_unspecified`, `from_path`, `from_abstract`, `from_c_str` and
  the dispatcher `new`;
- the view `UnixSocketAddrRef::from` and the `is_*` predicates built on the value;
- equality, hashing and comparison with byte slices;
- the normaliser `new_from_ffi`, which validates what a kernel call left in the buffer;
- the raw constructors `from_raw` and `from_raw_unchecked`.

Platform constants are a parameter, `Platform.Layout`. It holds:

- `structSize`: the size of `sockaddr_un`;
- `pathCap`: the size of `sun_path`;
- `familySize`: the size of `sa_family_t`;
- `afUnix`: the value of `AF_UNIX`;
- `hasAbstract`: the value of `has_abstract_addresses()`.

`Layout.Valid()` is what the code relies on: the tag lies before `sun_path`,
`sun_path` is not empty, and lengths fit in a `socklen_t`. Every property is proved
for every valid layout. `Platform.Linux` and `Platform.MacOS` are two concrete layouts.

Files:

- `platform.dfy`: the layout, bytes and `socklen_t`.
- `errors.dfy`: the `io::ErrorKind`s used, `Result`, and `Outcome`. `Outcome` is a
  result or a panic.
- `addr.dfy`: the value, the view, the `is_*` predicates, equality, hashing,
  comparison with bytes and the raw accessors.
- `constructors.dfy`: the constructors.
- `ffi.dfy`: `new_from_ffi` and `from_raw`.

`UnixSocketAddr` is `Copy` in Rust, so it is a datatype here. The code that fills a
buffer is written as methods:

- the zip-copy loops of `from_path`, `from_abstract` and `from_c_str`;
- the length bump and NUL write of `new_from_ffi`;
- the `copy_from_slice` of `from_raw`.

Each such method works on a zero-initialised `array<Byte>` standing for `sun_path`.
The three constructors share one copy loop, `Constructors.ZeroedCopy`, because the
source repeats the same loop in each of them.
Each is proved to return exactly what a pure `...Spec` function (or `NormalizeFfi`)
describes, and the lemmas state what those functions mean.

Where the documentation comments and the code disagree, the model follows the code:

- `max_path_len()` is documented as "minus 1 if the OS requires a trailing NUL", but it
  returns the whole size of `sun_path`.
- `from_c_str()` is documented to return ENAMETOOLONG for a long path, but it returns
  `InvalidInput`.
- `new_unspecified()` sets `len` to the size of the family tag, not to the path offset.
  On BSDs and macOS this is below the offset. The address is still unnamed.
- The view does not consult `has_abstract_addresses()`. The `is_*` predicates do.
  Without the abstract namespace, `is_unnamed` therefore holds for buffers that the
  view calls abstract (`UnixAddr.PredicatesMatchView`).

## Model

| member | source | states |
|---|---|---|
| `Platform.Layout.PathOffset` | src/addr.rs:16-22 | the offset of `sun_path` is the structure size minus the size of `sun_path`, and is at least the size of the family tag |
| `UnixAddr.NewUnspecified` | src/addr.rs:231-238 | the unspecified address is tagged AF_UNIX with an all-zero `sun_path`; its `len` (the tag size) is at most the offset, so it is well formed, its view is Unnamed and `is_unnamed` holds |
| `UnixAddr.MaxPathLen` | src/addr.rs:240-246 | the maximum path length is the full size of `sun_path`, with no byte reserved for a NUL |
| `UnixAddr.MaxAbstractLen` | src/addr.rs:286-288 | `max_path_len() - max_abstract_len() == 1` on every platform |
| `UnixAddr.View` | src/addr.rs:99-116 | the view is Unnamed iff `len <= offset`, and Abstract iff name bytes are in use and `sun_path[0]` is NUL; an abstract name is the bytes between the marker and `len`; a path is the `len - offset` bytes in use with exactly one trailing NUL dropped when the last of them is NUL (a non-empty prefix of `sun_path` not starting with NUL) |
| `UnixAddr.HasAbstractAddresses` | src/addr.rs:290-296 | the abstract namespace is available on the Linux layout and not on the macOS layout |
| `UnixAddr.IsUnnamed` | src/addr.rs:382-390 | holds iff the view is Unnamed, or, without the abstract namespace, also when the view is Abstract |
| `UnixAddr.IsAbstract` | src/addr.rs:391-397 | never holds without the abstract namespace; with it, holds iff the view is Abstract |
| `UnixAddr.IsAbsolutePath` | src/addr.rs:398-400 | implies `is_path`; holds iff the view is a path starting with `'/'` |
| `UnixAddr.IsRelativePath` | src/addr.rs:401-405 | implies `is_path` and excludes `is_absolute_path`; holds iff the view is a path not starting with `'/'` |
| `UnixAddr.IsPath` | src/addr.rs:406-408 | holds iff the view is a Path |
| `UnixAddr.Eq` | src/addr.rs:556-560 | equality is reflexive, and equal addresses agree on `is_path` and on being unnamed |
| `UnixAddr.Hash` | src/addr.rs:562-566 | every unnamed address hashes as the Unnamed view, whatever its buffer holds |
| `UnixAddr.EqBytes` | src/addr.rs:568-577 | an unnamed address matches exactly the empty slice; a non-empty matching slice starts with NUL iff the address is abstract |
| `UnixAddr.IntoRaw` | src/addr.rs:509-511 | the structure and length returned rebuild the address exactly |
| `UnixAddr.ViewDropsOneTrailingNul` | src/addr.rs:108-113 | with the bytes `'a', NUL, NUL` in use the path is `'a', NUL`: only one trailing NUL is dropped |
| `UnixAddr.FromRawUnchecked` | src/addr.rs:504-506 | builds the address from the structure and length unchecked; `into_raw` gives them back, and the result is well formed only when the caller's length bound holds |
| `UnixAddr.PredicatesMatchView` | src/addr.rs:382-408 | `is_path` holds iff the view is Path; with the abstract namespace `is_unnamed` and `is_abstract` match the view's kinds; without it `is_abstract` is false and `is_unnamed` holds iff the view is not a Path; absolute and relative paths are told apart by the path's first byte |
| `UnixAddr.PredicatesPartition` | src/addr.rs:382-408 | for every length and platform exactly one of `is_unnamed`, `is_abstract` and `is_path` holds, and a path is absolute or relative, never both |
| `UnixAddr.ViewReadsOnlyUsedBytes` | src/addr.rs:99-116 | two addresses with equal `len` that agree on the `len - offset` bytes in use have the same view and compare equal, whatever the bytes past `len` |
| `UnixAddr.EqIgnoresTrailingNul` | src/addr.rs:556-560 | a path address without a terminator equals the same address whose `len` also covers a trailing NUL |
| `UnixAddr.HashAgreesWithEq` | src/addr.rs:562-566 | addresses that compare equal hash alike under every hasher, because the hash is taken over the view |
| `UnixAddr.EqBytesMeaning` | src/addr.rs:568-577 | a path matches exactly its bytes; an abstract address matches exactly NUL followed by its name and never a slice starting with `'@'`; the unnamed address matches only the empty slice |
| `UnixAddr.RawUncheckedRoundTrip` | src/addr.rs:504-511 | `from_raw_unchecked(into_raw(a))` is `a` |
| `Constructors.ZeroedCopy` | src/addr.rs:266-268 | the zip-copy into a zeroed `sun_path` starting at byte `at` yields exactly the source bytes there and NUL everywhere else |
| `Constructors.AnyNul` | src/addr.rs:263 | the scan for a NUL byte reports true iff the path contains one |
| `Constructors.FromPath` | src/addr.rs:254-277 | checks emptiness (NotFound), then length over `sun_path` (InvalidInput), then an embedded NUL (InvalidInput); on success returns the zero-filled copy with `len = offset + n (+1 if room)`, which is well formed and whose view is `Path(path)` |
| `Constructors.FromAbstract` | src/addr.rs:317-336 | fails with AddrNotAvailable without the namespace before any length check, then InvalidInput above `max_abstract_len()`; on success a NUL marker and the name, `len = offset + 1 + n`, view `Abstract(name)` |
| `Constructors.FromCStr` | src/addr.rs:362-380 | an empty C string gives the unnamed address, an overlong one InvalidInput, otherwise the path encoding whose view is `Path(path)` |
| `Constructors.New` | src/addr.rs:200-209 | dispatches on the first byte (`'@'` or NUL to `from_abstract` of the rest, empty to `new_unspecified`, anything else to `from_path`); a result compares equal to its input bytes unless they used the `'@'` spelling |
| `Constructors.PathEncodingView` | src/addr.rs:266-273 | a non-empty NUL-free path that fits is encoded within the structure, satisfies `is_path`, and is read back as exactly that path |
| `Constructors.AbstractEncodingView` | src/addr.rs:328-332 | a name shorter than `sun_path` is encoded within the structure and read back as exactly that abstract name (and `is_abstract` holds where supported) |
| `Constructors.FromPathOutcome` | src/addr.rs:254-274 | `from_path` succeeds iff the path is non-empty, at most `max_path_len()` long and NUL-free, and then yields that path |
| `Constructors.FromAbstractOutcome` | src/addr.rs:317-336 | without the namespace every name fails with AddrNotAvailable; otherwise success iff the name is at most `max_abstract_len()` long, yielding that name |
| `Constructors.FromCStrAgreesWithFromPath` | src/addr.rs:362-380 | `from_c_str` equals `from_path` on every non-empty input; on the empty input it gives the unnamed address where `from_path` fails with NotFound |
| `Constructors.NewClassifies` | src/addr.rs:200-209 | `new` yields Unnamed for empty input, `Abstract(rest)` after a leading `'@'` or NUL, and `Path(all)` otherwise; abstract input fails with AddrNotAvailable where unsupported |
| `Constructors.NewMatchesBytes` | src/addr.rs:568-577 | an address built by `new` from bytes compares equal to those bytes iff they are empty or do not start with `'@'` |
| `Constructors.NewDocumentedExamples` | src/addr.rs:176-199 | `"@abstract"` and `"\0abstract"` are abstract where supported and errors elsewhere; `"./@path"` is a relative path; `""` is unnamed |
| `Ffi.FfiStart` | src/addr.rs:430-432 | the call is given an AF_UNIX structure with an all-zero `sun_path` and `len` set to the whole structure |
| `Ffi.NormalizeFfi` | src/addr.rs:435-463 | the call's error is passed through; every other failure is InvalidData; a success carries the call's value and an AF_UNIX structure of the right shape |
| `Ffi.NewFromFfi` | src/addr.rs:428-466 | the normaliser applied to what the call left in the buffer it was given; with the abstract namespace every address it returns is well formed |
| `Ffi.FfiErrors` | src/addr.rs:435-451 | the call's error propagates unchanged; otherwise it fails, always with InvalidData, iff the family is not AF_UNIX, an abstract name exceeds the structure, or a path exceeds it by more than one byte |
| `Ffi.FfiResult` | src/addr.rs:453-461 | on success the call's value is returned; a path's `len` is clamped to the structure or grown by one; only the byte at the old end of the name may change, and only to NUL; a path shorter than the structure then ends in NUL |
| `Ffi.FfiWellFormedWithAbstract` | src/addr.rs:442-463 | with the abstract namespace, every returned address has `len` at most the structure size |
| `Ffi.FfiKeepsView` | src/addr.rs:454-461 | when the reported length fits, normalisation does not change the view of what the call wrote |
| `Ffi.FfiClampsFullPath` | src/addr.rs:450-457 | a path filling `sun_path`, reported one byte past the structure, is accepted with `len` clamped to the structure and read back whole |
| `Ffi.FfiOverlongWithoutAbstract` | src/addr.rs:442-449 | as written, without the abstract namespace a zero buffer reported one byte past the structure is accepted with a `len` past the structure |
| `Ffi.NormalizeFfiChecked` | src/addr.rs:442-463 | the normaliser with the length checked on every branch returns only well-formed addresses and agrees with the original everywhere on abstract-capable platforms; it differs from the original exactly where the original succeeds with a `len` past the structure, and there it fails with InvalidData |
| `Ffi.FromRawSpec` | src/addr.rs:475-495 | a null pointer gives the unnamed address for length 0 and InvalidInput otherwise; a panic needs a real pointer and a length at least the offset but not the `sun_path` size; successes are well-formed AF_UNIX addresses |
| `Ffi.FromRaw` | src/addr.rs:475-495 | runs the checks in the source's order and then the copy, which panics unless `len` equals the size of `sun_path` |
| `Ffi.FromRawOutcome` | src/addr.rs:475-495 | null with length 0 is unnamed; InvalidInput iff null with a non-zero length or a length outside `[offset, structure]`; InvalidData iff the length passes and the family is foreign; a panic iff every check passes and `len != max_path_len()`; successes are well formed |
| `Ffi.FromRawPanicsOnOwnAddresses` | src/addr.rs:488-492 | `from_raw` of `as_raw` of any AF_UNIX address whose length is at least the offset but differs from `max_path_len()` panics |
| `Ffi.FromRawPanicsOnLinuxPath` | src/addr.rs:488-492 | on Linux, `from_raw` of `as_raw` of `from_path("/x")` (length 5) panics |
| `Ffi.FromRawFixed` | src/addr.rs:475-495 | the corrected `from_raw` keeps every error of the original, never panics, and returns well-formed AF_UNIX addresses |
| `Ffi.FromRawFixedRoundTrip` | src/addr.rs:488-493 | the corrected `from_raw` of `as_raw(a)` succeeds for every AF_UNIX address whose length reaches the offset, keeps its length, and equals `a` |

## Left out

- `src/seqpacket.rs`: the socket types and their system calls are left out. They call these constructors and `new_from_ffi` but contain no address logic of their own.
- `Debug` and `Display` (src/addr.rs:118-152) are left out. They render through `Path::display` and lossy UTF-8 conversion, which are library behaviour.
- `from_std` (src/addr.rs:344-352) is left out. It needs the opaque `std::os::unix::net::SocketAddr`.
- The error message strings are left out. Errors are modelled by their `ErrorKind` only.
- The pointer casts in `as_u8`, `as_raw_general`, `as_raw_mut_general` and `as_raw_mut`, and the `mem::size_of` arithmetic inside `path_offset`, are left out. The sizes are layout parameters. `UnixAddr.IntoRaw` is the plain (structure, length) accessor. The mutable accessors only hand out references.
- The kernel call inside `new_from_ffi` is not modelled. It is a function parameter from the prepared buffer to an outcome: an error, or a value with the structure and length it left. Any other side effect of the closure is not modelled.
- `from_raw`'s pointer is modelled as null or as pointing at a whole `sockaddr_un`. The model does not capture reads past the memory the caller vouched for, which the slice of `len` bytes starting at `sun_path` performs.
- On BSDs the `sun_len` byte is part of the offset and is not modelled as a field. `new_unspecified` leaves it zero.
- `Default` is `new_unspecified` and has no member of its own. `PartialEq<UnixSocketAddr> for [u8]` is the same relation as `UnixAddr.EqBytes`, with its arguments swapped.
- UnixAddr.Eq: compares Path views by their bytes. Rust's `Path` equality and hashing compare path components, so `a//b` and `a/b` are equal there and distinct here.
- UnixAddr.View: requires `len` to be at most the structure size, the documented field invariant. Past it, the Rust slice indexing panics. That is not modelled.
- The `...Spec` functions of `constructors.dfy` only state what the methods compute. Their meaning is in the lemmas listed above.

## Findings

| source | as written | input that shows it | evidently intended | confidence | as-written member | corrected member |
|---|---|---|---|---|---|---|
| src/addr.rs:488-492 | `from_raw` copies a slice of `len` bytes into the fixed `sun_path` with `copy_from_slice`, which panics unless the lengths are equal, so every validated length except `max_path_len()` panics | Linux layout, the structure and length (5) of `from_path("/x")` | copy the `len - offset` name bytes into a zeroed `sun_path` and keep `len`, so that `from_raw(as_raw(a))` equals `a` | high (the panic on unequal lengths is documented for `copy_from_slice`), not executed | `Ffi.FromRawPanicsOnLinuxPath` | `Ffi.FromRawFixed` |
| src/addr.rs:442-449 | without the abstract namespace, a buffer whose first byte is NUL is neither abstract nor a path, so `new_from_ffi` never bounds its length | a layout without the abstract namespace, the call reports AF_UNIX, an all-zero `sun_path` and a length one past the structure | refuse any length past the structure on every branch, as the field comment at src/addr.rs:51-53 requires | medium, not executed | `Ffi.FfiOverlongWithoutAbstract` | `Ffi.NormalizeFfiChecked` |
