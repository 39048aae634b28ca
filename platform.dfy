/**
 * Platform constants of the native `struct sockaddr_un` layout.
 *
 * The Rust crate reads these from `libc` and `cfg!` at compile time; here they
 * are a parameter (`Layout`) so that every property is proved for every
 * platform whose layout is sane, not only for Linux.
 */
module Platform {

  /** One byte of `sun_path` (the crate reinterprets `c_char` as `u8`). */
  newtype Byte = b: int | 0 <= b < 0x100

  /** `socklen_t`, an unsigned 32-bit length. */
  type SockLen = n: int | 0 <= n < 0x1_0000_0000

  const NUL: Byte := 0x00
  const SLASH: Byte := 0x2F  // '/'
  const AT: Byte := 0x40     // '@'

  /**
   * The sizes that decide where `sun_path` sits and how large it is.
   *   structSize  size_of::<sockaddr_un>()
   *   pathCap     size of the `sun_path` array
   *   familySize  size_of::<sa_family_t>()
   *   afUnix      the value of AF_UNIX
   *   hasAbstract whether the OS has the abstract namespace (Linux, Android)
   */
  datatype Layout = Layout(
    structSize: nat,
    pathCap: nat,
    familySize: nat,
    afUnix: nat,
    hasAbstract: bool)
  {
    /**
     * A layout the crate can work with: the family tag lies before `sun_path`,
     * `sun_path` has at least one byte (its first byte tells paths from
     * abstract names), and `capacity + 1` still fits in a `socklen_t`.
     */
    predicate Valid() {
      0 < familySize
      && 1 <= pathCap
      && familySize + pathCap <= structSize
      && structSize + 1 < 0x1_0000_0000
    }

    /**
     * `path_offset()`: where `sun_path` starts, computed as the size of the
     * whole structure minus the size of `sun_path`, which on BSDs is larger
     * than the family tag because `sun_len` comes first.
     */
    function PathOffset(): (r: nat)
      requires Valid()
      ensures r + pathCap == structSize
      ensures familySize <= r
    {
      structSize - pathCap
    }
  }

  /** Linux and Android: `sa_family_t` is 2 bytes, `sun_path` is 108 bytes. */
  const Linux: Layout := Layout(110, 108, 2, 1, true)

  /** macOS: `sun_len` and `sun_family` are one byte each, `sun_path` is 104 bytes. */
  const MacOS: Layout := Layout(106, 104, 1, 1, false)

  /** The bytes of an ASCII string literal. */
  function Ascii(s: string): (r: seq<Byte>)
    requires forall i :: 0 <= i < |s| ==> s[i] as int < 0x100
    ensures |r| == |s|
    ensures forall i :: 0 <= i < |s| ==> r[i] as int == s[i] as int
  {
    seq(|s|, i requires 0 <= i < |s| => s[i] as int as Byte)
  }
}
