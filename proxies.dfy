/** The `Proxy` descriptor (main.go) and the methods utils.go defines on it:
    `ShortID`, the session identifier, and `ProxyURL`. */
module Proxies {
  import opened Strings
  import opened Format

  /** One configured proxy: host, port and optional credentials. */
  datatype Proxy = Proxy(ip: string, port: string, username: string, password: string)

  /** The string `ShortID` hashes: `"%s:%s:%s:%s"` of the four fields. */
  function Joined(p: Proxy): string
  {
    p.ip + ":" + p.port + ":" + p.username + ":" + p.password
  }

  lemma JoinedIsJoin(p: Proxy)
    ensures Joined(p) == Join([p.ip, p.port, p.username, p.password], ':')
  {
    Join4([p.ip, p.port, p.username, p.password], ':');
  }

  /** No field holds the separator, as is the case for every proxy the list parser yields. */
  predicate ColonFree(p: Proxy)
  {
    ':' !in p.ip && ':' !in p.port && ':' !in p.username && ':' !in p.password
  }

  /** The hashed string is unambiguous for colon-free fields: splitting it at
      the colons gives the four fields back, so distinct proxies hash distinct strings. */
  lemma JoinedSplits(p: Proxy)
    requires ColonFree(p)
    ensures Split(Joined(p), ':') == [p.ip, p.port, p.username, p.password]
  {
    JoinedIsJoin(p);
    SplitJoin([p.ip, p.port, p.username, p.password], ':');
  }

  lemma JoinedInjective(p: Proxy, q: Proxy)
    requires ColonFree(p) && ColonFree(q)
    ensures Joined(p) == Joined(q) <==> p == q
  {
    JoinedSplits(p);
    JoinedSplits(q);
  }

  // ---------------------------------------------------------------------------
  // UTF-8: a Go string is the UTF-8 bytes of its text.

  /** Go's `byte`. */
  type byte = b: int | 0 <= b < 256

  /** The UTF-8 encoding of one Unicode scalar value. */
  function Utf8(c: char): (bytes: seq<byte>)
    ensures 1 <= |bytes| <= 4
    ensures |bytes| == 1 <==> c < '\U{0080}'
    ensures c < '\U{0080}' ==> bytes == [c as int]
  {
    var cp := c as int;
    if cp < 0x80 then
      [cp]
    else if cp < 0x800 then
      [0xC0 + cp / 0x40, 0x80 + cp % 0x40]
    else if cp < 0x1_0000 then
      [0xE0 + cp / 0x1000, 0x80 + cp / 0x40 % 0x40, 0x80 + cp % 0x40]
    else
      [0xF0 + cp / 0x4_0000, 0x80 + cp / 0x1000 % 0x40, 0x80 + cp / 0x40 % 0x40, 0x80 + cp % 0x40]
  }

  /** The bytes of a string, character by character. */
  function Encode(s: string): (bytes: seq<byte>)
    ensures |bytes| >= |s|
  {
    if s == [] then [] else Utf8(s[0]) + Encode(s[1..])
  }

  /** Encoding is per character: the bytes of `a + b` are those of `a`
      followed by those of `b`. */
  lemma {:induction false} EncodeAppend(a: string, b: string)
    ensures Encode(a + b) == Encode(a) + Encode(b)
    decreases |a|
  {
    if a == [] {
      assert a + b == b;
    } else {
      assert (a + b)[0] == a[0] && (a + b)[1..] == a[1..] + b;
      EncodeAppend(a[1..], b);
    }
  }

  // ---------------------------------------------------------------------------
  // FNV-1a, 64-bit (Go's hash/fnv New64a), on `uint64` values held as naturals
  // below 2^64.

  const FnvOffsetBasis: nat := 14695981039346656037
  const FnvPrime: nat := 1099511628211

  /** The bitwise exclusive or of the low `bits` bits of `a` and `b`. */
  function XorBits(a: nat, b: nat, bits: nat): (r: nat)
    ensures r < Pow(2, bits)
  {
    if bits == 0 then 0 else (a + b) % 2 + 2 * XorBits(a / 2, b / 2, bits - 1)
  }

  /** `h ^ uint64(b)`: the byte only meets the low eight bits of `h`. */
  function XorByte(h: nat, b: byte): (r: nat)
    ensures r / 256 == h / 256
  {
    assert Pow(2, 8) == 256;
    h / 256 * 256 + XorBits(h % 256, b, 8)
  }

  /** One FNV-1a round: xor the byte in, then multiply by the prime modulo 2^64. */
  function FnvStep(h: nat, b: byte): (r: nat)
    ensures r < Uint64Limit
  {
    XorByte(h, b) * FnvPrime % Uint64Limit
  }

  /** The FNV-1a state after absorbing `data` from state `h`. */
  function FnvFold(h: nat, data: seq<byte>): (r: nat)
    ensures h < Uint64Limit ==> r < Uint64Limit
    decreases |data|
  {
    if data == [] then h else FnvFold(FnvStep(h, data[0]), data[1..])
  }

  /** The hash is a stream fold: absorbing `a` then `b` is absorbing `a + b`,
      so how the formatted string reaches the hash in writes does not matter. */
  lemma {:induction false} FnvFoldAppend(h: nat, a: seq<byte>, b: seq<byte>)
    ensures FnvFold(h, a + b) == FnvFold(FnvFold(h, a), b)
    decreases |a|
  {
    if a != [] {
      assert (a + b)[0] == a[0] && (a + b)[1..] == a[1..] + b;
      FnvFoldAppend(FnvStep(h, a[0]), a[1..], b);
    } else {
      assert a + b == b;
    }
  }

  /** `fnv.New64a()`, written to with `data`, then `Sum64()`. */
  function Fnv1a64(data: seq<byte>): (h: nat)
    ensures h < Uint64Limit
  {
    FnvFold(FnvOffsetBasis, data)
  }

  /** The published FNV-1a 64 reference values for "" and "a". */
  lemma FnvReferenceValues()
    ensures Fnv1a64([]) == 0xcbf29ce484222325
    ensures Fnv1a64([0x61]) == 0xaf63dc4c8601ec8c
  {
    assert [0x61][1..] == [];
    // 0x25 ^ 0x61, bit by bit from the top
    assert XorBits(0, 0, 1) == 0;
    assert XorBits(0, 1, 2) == 1;
    assert XorBits(1, 3, 3) == 2;
    assert XorBits(2, 6, 4) == 4;
    assert XorBits(4, 12, 5) == 8;
    assert XorBits(9, 24, 6) == 17;
    assert XorBits(18, 48, 7) == 34;
    assert XorBits(0x25, 0x61, 8) == 0x44;
    assert FnvOffsetBasis % 256 == 0x25 && FnvOffsetBasis / 256 * 256 == 14695981039346656000;
    assert XorByte(FnvOffsetBasis, 0x61) == 14695981039346656068;
    var product := 14695981039346656068 * FnvPrime;
    assert product == 16158402040730025868984903134348;
    assert product == 875948729822 * Uint64Limit + 0xaf63dc4c8601ec8c;
    DivUnique(product, Uint64Limit, 875948729822, 0xaf63dc4c8601ec8c);
    assert FnvStep(FnvOffsetBasis, 0x61) == 0xaf63dc4c8601ec8c;
  }

  /** `Proxy.ShortID`: the FNV-1a 64 hash of `Joined(p)`, printed with `%x`. */
  function ShortID(p: Proxy): string
  {
    Hex(Fnv1a64(Encode(Joined(p))))
  }

  /** The identifier is 1 to 16 lower-case hex digits without a leading zero,
      and reading it back in base 16 gives the 64-bit hash of the joined fields. */
  lemma ShortIDShape(p: Proxy)
    ensures var id := ShortID(p);
      && 1 <= |id| <= 16
      && (forall i :: 0 <= i < |id| ==> id[i] in Digits)
      && (|id| > 1 ==> id[0] != '0')
      && TextToNat(id, 16) == Fnv1a64(Encode(Joined(p)))
  {
    HexOfUint64(Fnv1a64(Encode(Joined(p))));
  }

  /** `%x` of a 64-bit value is 1 to 16 lower-case digits without a leading
      zero, and reads back as the value. */
  lemma HexOfUint64(n: nat)
    requires n < Uint64Limit
    ensures 1 <= |Hex(n)| <= 16
    ensures forall i :: 0 <= i < |Hex(n)| ==> Hex(n)[i] in Digits
    ensures |Hex(n)| > 1 ==> Hex(n)[0] != '0'
    ensures TextToNat(Hex(n), 16) == n
  {
    TextRoundTrip(n, 16);
    PowAdd(16, 1, 1);
    PowAdd(16, 2, 2);
    PowAdd(16, 4, 4);
    PowAdd(16, 8, 8);
    HexLength(n, 16);
    NatToTextDigits(n, 16);
  }

  // ---------------------------------------------------------------------------
  // Proxy.ProxyURL

  function ProxyURL(p: Proxy): (url: string)
  {
    if p.username != "" && p.password != "" then
      "http://" + p.username + ":" + p.password + "@" + p.ip + ":" + p.port
    else
      "http://" + p.ip + ":" + p.port
  }

  /** The URL is always `http://...host:port`; it carries a user-info part,
      seen as an `@`, exactly when both credentials are non-empty. */
  lemma ProxyURLShape(p: Proxy)
    requires '@' !in p.ip && '@' !in p.port && '@' !in p.username && '@' !in p.password
    ensures var url, hostPort := ProxyURL(p), p.ip + ":" + p.port;
      && HasPrefix(url, "http://")
      && |hostPort| <= |url| && url[|url| - |hostPort|..] == hostPort
      && ('@' in url <==> p.username != "" && p.password != "")
  {
    var url, hostPort := ProxyURL(p), p.ip + ":" + p.port;
    if p.username != "" && p.password != "" {
      var userInfo := "http://" + p.username + ":" + p.password + "@";
      assert url == userInfo + hostPort;
      assert url[|userInfo| - 1] == '@';
    } else {
      assert url == "http://" + hostPort;
      forall i | 0 <= i < |url|
        ensures url[i] != '@'
      {
        if i >= 7 {
          assert url[i] == hostPort[i - 7];
        }
      }
    }
  }
}
