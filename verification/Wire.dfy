/** Bytes on the wire: big-endian numbers and lists of prefixes (src/prefix4.c, src/prefix6.c and the list
    loops of src/update.c; section 4.3 of RFC 4271). Prefixes of both families share one form, an address
    of `width` bytes. */
module Wire {
  import opened Wrappers
  import opened Prefix4
  import opened PathAttr

  type Bytes = seq<bv8>

  // ----- numbers

  /** Four bits, most significant first. */
  datatype Nibble = Nibble(b3: bool, b2: bool, b1: bool, b0: bool)

  function ValueOf(x: Nibble): (n: nat)
    ensures n < 16
  {
    (if x.b3 then 8 else 0) + (if x.b2 then 4 else 0) + (if x.b1 then 2 else 0) + (if x.b0 then 1 else 0)
  }

  function NibbleOf(n: nat): Nibble
    requires n < 16
  {
    Nibble(n >= 8, n % 8 >= 4, n % 4 >= 2, n % 2 >= 1)
  }

  lemma NibbleRound(n: nat, x: Nibble)
    requires n < 16
    ensures ValueOf(NibbleOf(n)) == n && NibbleOf(ValueOf(x)) == x
  {
  }

  function Join(hi: Nibble, lo: Nibble): bv8 {
    (if hi.b3 then 0x80 else 0) | (if hi.b2 then 0x40 else 0) | (if hi.b1 then 0x20 else 0)
    | (if hi.b0 then 0x10 else 0)
    | (if lo.b3 then 0x08 else 0) | (if lo.b2 then 0x04 else 0) | (if lo.b1 then 0x02 else 0)
    | (if lo.b0 then 0x01 else 0)
  }

  function High(b: bv8): Nibble {
    Nibble(b & 0x80 != 0, b & 0x40 != 0, b & 0x20 != 0, b & 0x10 != 0)
  }

  function Low(b: bv8): Nibble {
    Nibble(b & 0x08 != 0, b & 0x04 != 0, b & 0x02 != 0, b & 0x01 != 0)
  }

  lemma JoinRound(hi: Nibble, lo: Nibble, b: bv8)
    ensures High(Join(hi, lo)) == hi && Low(Join(hi, lo)) == lo && Join(High(b), Low(b)) == b
  {
  }

  /** The byte with a given value. */
  function B(n: nat): bv8
    requires n < 256
  {
    Join(NibbleOf(n / 16), NibbleOf(n % 16))
  }

  /** The value of a byte. */
  function N(b: bv8): (n: nat)
    ensures n < 256
  {
    16 * ValueOf(High(b)) + ValueOf(Low(b))
  }

  lemma NofB(n: nat)
    requires n < 256
    ensures N(B(n)) == n
  {
    hide Join, High, Low, ValueOf, NibbleOf;
    JoinRound(NibbleOf(n / 16), NibbleOf(n % 16), 0);
    NibbleRound(n / 16, NibbleOf(n / 16));
    NibbleRound(n % 16, NibbleOf(n % 16));
  }

  lemma BofN(b: bv8)
    ensures B(N(b)) == b
  {
    hide Join, High, Low, ValueOf, NibbleOf;
    JoinRound(High(b), Low(b), b);
    NibbleRound(0, High(b));
    NibbleRound(0, Low(b));
    assert N(b) / 16 == ValueOf(High(b)) && N(b) % 16 == ValueOf(Low(b));
  }

  function Put16(n: nat): (r: Bytes)
    requires n < 0x1_0000
    ensures |r| == 2
  {
    [B(n / 256), B(n % 256)]
  }

  function Get16(b: Bytes): (n: nat)
    requires |b| >= 2
    ensures n < 0x1_0000
  {
    N(b[0]) * 256 + N(b[1])
  }

  lemma GetPut16(n: nat, rest: Bytes)
    requires n < 0x1_0000
    ensures Get16(Put16(n) + rest) == n
  {
    hide B, N;
    NofB(n / 256);
    NofB(n % 256);
  }

  lemma PutGet16(b: Bytes)
    requires |b| >= 2
    ensures Put16(Get16(b)) == b[..2]
  {
    hide B, N;
    BofN(b[0]);
    BofN(b[1]);
  }

  function Put32(n: nat): (r: Bytes)
    requires n < 0x1_0000_0000
    ensures |r| == 4
  {
    Put16(n / 0x1_0000) + Put16(n % 0x1_0000)
  }

  function Get32(b: Bytes): (n: nat)
    requires |b| >= 4
    ensures n < 0x1_0000_0000
  {
    Get16(b) * 0x1_0000 + Get16(b[2..])
  }

  lemma GetPut32(n: nat, rest: Bytes)
    requires n < 0x1_0000_0000
    ensures Get32(Put32(n) + rest) == n
  {
    hide Put16, Get16;
    GetPut16(n / 0x1_0000, Put16(n % 0x1_0000) + rest);
    GetPut16(n % 0x1_0000, rest);
    assert Put32(n) + rest == Put16(n / 0x1_0000) + (Put16(n % 0x1_0000) + rest);
    assert (Put32(n) + rest)[2..] == Put16(n % 0x1_0000) + rest;
  }

  lemma PutGet32(b: Bytes)
    requires |b| >= 4
    ensures Put32(Get32(b)) == b[..4]
  {
    hide Put16, Get16;
    PutGet16(b);
    PutGet16(b[2..]);
    assert Get32(b) / 0x1_0000 == Get16(b) && Get32(b) % 0x1_0000 == Get16(b[2..]);
    assert b[..4] == b[..2] + b[2..][..2];
  }

  // ----- prefixes

  datatype RawPrefix = RawPrefix(len: nat, addr: Bytes)

  function Octets(len: nat): nat {
    (len + 7) / 8
  }

  /** The bytes with everything after the first `len` bits cleared. */
  function Masked(addr: Bytes, len: nat): (r: Bytes)
    ensures |r| == |addr|
  {
    seq(|addr|, i requires 0 <= i < |addr| => MaskByte(addr[i], BitsInByte(len, i)))
  }

  function Zeros(n: nat): (r: Bytes)
    ensures |r| == n
  {
    seq(n, _ => 0)
  }

  lemma MaskByteTwice(b: bv8, k: nat)
    requires k <= 8
    ensures MaskByte(MaskByte(b, k), k) == MaskByte(b, k) && MaskByte(b, 0) == 0
  {
  }

  /** Clearing is idempotent, and what an address keeps lies in its first octets. */
  lemma MaskedFacts(addr: Bytes, len: nat)
    requires len <= 8 * |addr|
    ensures Octets(len) <= |addr|
    ensures Masked(Masked(addr, len), len) == Masked(addr, len)
    ensures Masked(addr, len) == Masked(addr[..Octets(len)], len) + Zeros(|addr| - Octets(len))
  {
    hide MaskByte;
    var o := Octets(len);
    forall i | 0 <= i < |addr|
      ensures MaskByte(MaskByte(addr[i], BitsInByte(len, i)), BitsInByte(len, i))
              == MaskByte(addr[i], BitsInByte(len, i))
    {
      MaskByteTwice(addr[i], BitsInByte(len, i));
    }
    assert Masked(Masked(addr, len), len) == Masked(addr, len);
    var r := Masked(addr[..o], len) + Zeros(|addr| - o);
    forall i | 0 <= i < |addr| ensures Masked(addr, len)[i] == r[i] {
      if i >= o {
        assert BitsInByte(len, i) == 0;
        MaskByteTwice(addr[i], 0);
      }
    }
    assert Masked(addr, len) == r;
  }

  /** Padding and clearing commute. */
  lemma MaskedPadded(bytes: Bytes, len: nat, pad: nat)
    requires |bytes| == Octets(len)
    ensures Masked(bytes + Zeros(pad), len) == Masked(bytes, len) + Zeros(pad)
  {
    hide MaskByte;
    var l, r := Masked(bytes + Zeros(pad), len), Masked(bytes, len) + Zeros(pad);
    forall i | 0 <= i < |l| ensures l[i] == r[i] {
      if i >= |bytes| {
        assert BitsInByte(len, i) == 0;
        MaskByteTwice(0, 0);
      }
    }
    assert l == r;
  }

  function ParsePrefix(width: nat, b: Bytes): Result<(RawPrefix, nat)> {
    if b == [] then Failure(BadLen)
    else
      var len := N(b[0]);
      var o := Octets(len);
      if len > 8 * width then Failure(Invalid)
      else if |b| < 1 + o then Failure(BadLen)
      else Success((RawPrefix(len, Masked(b[1..1 + o] + Zeros(width - o), len)), 1 + o))
  }

  /** A prefix that can be written: the length fits the address and a byte. */
  predicate Writable(width: nat, p: RawPrefix) {
    |p.addr| == width && p.len <= 8 * width && p.len < 256
  }

  function WritePrefix(p: RawPrefix): Bytes
    requires p.len <= 8 * |p.addr| && p.len < 256
  {
    [B(p.len)] + Masked(p.addr, p.len)[..Octets(p.len)]
  }

  function ClearHosts(p: RawPrefix): RawPrefix {
    p.(addr := Masked(p.addr, p.len))
  }

  /** The wire form of a prefix with its host bits cleared. */
  function MaskWire(b: Bytes): Bytes
    requires b != []
  {
    [b[0]] + Masked(b[1..], N(b[0]))
  }

  /** Writing then parsing clears the host bits and uses exactly what was written. */
  lemma ParseWritten(width: nat, p: RawPrefix, rest: Bytes)
    requires Writable(width, p)
    ensures ParsePrefix(width, WritePrefix(p) + rest) == Success((ClearHosts(p), |WritePrefix(p)|))
            && WritePrefix(p) != []
  {
    hide B, N, Masked, Zeros;
    var o, b := Octets(p.len), WritePrefix(p) + rest;
    var m := Masked(p.addr, p.len);
    NofB(p.len);
    MaskedFacts(p.addr, p.len);
    MaskedFacts(m, p.len);
    assert b[0] == B(p.len) && b[1..1 + o] == m[..o];
    assert |m[..o]| == o;
    MaskedPadded(m[..o], p.len, width - o);
  }

  /** Parsing then writing gives the same bytes with the host bits cleared. */
  lemma WriteParsed(width: nat, b: Bytes)
    requires ParsePrefix(width, b).Success?
    ensures var (p, used) := ParsePrefix(width, b).value;
            && 1 <= used <= |b| && Writable(width, p) && ClearHosts(p) == p
            && WritePrefix(p) == MaskWire(b[..used]) && |MaskWire(b[..used])| == used
  {
    hide B, N, Masked, Zeros;
    var (p, used) := ParsePrefix(width, b).value;
    var len := N(b[0]);
    var o := Octets(len);
    var padded := b[1..1 + o] + Zeros(width - o);
    BofN(b[0]);
    MaskedFacts(padded, len);
    MaskedPadded(b[1..1 + o], len, width - o);
    assert Masked(p.addr, len)[..o] == Masked(b[1..1 + o], len);
    assert b[..used][1..] == b[1..1 + o];
  }

  // ----- lists of prefixes

  function ParsePrefixes(width: nat, b: Bytes): Result<seq<RawPrefix>>
    decreases |b|
  {
    if b == [] then Success([])
    else
      match ParsePrefix(width, b)
      case Failure(e) => Failure(e)
      case Success(pu) =>
        WriteParsed(width, b);
        match ParsePrefixes(width, b[pu.1..])
        case Failure(e) => Failure(e)
        case Success(rest) => Success([pu.0] + rest)
  }

  predicate AllWritable(width: nat, ps: seq<RawPrefix>) {
    forall i :: 0 <= i < |ps| ==> Writable(width, ps[i])
  }

  function WritePrefixes(width: nat, ps: seq<RawPrefix>): Bytes
    requires AllWritable(width, ps)
  {
    if ps == [] then [] else WritePrefix(ps[0]) + WritePrefixes(width, ps[1..])
  }

  function ClearAll(ps: seq<RawPrefix>): (r: seq<RawPrefix>)
    ensures |r| == |ps|
  {
    seq(|ps|, i requires 0 <= i < |ps| => ClearHosts(ps[i]))
  }

  /** A list on the wire with the host bits of every prefix cleared. */
  function MaskList(width: nat, b: Bytes): Bytes
    decreases |b|
  {
    if b == [] || ParsePrefix(width, b).Failure? then b
    else
      WriteParsed(width, b);
      var used := ParsePrefix(width, b).value.1;
      MaskWire(b[..used]) + MaskList(width, b[used..])
  }

  lemma {:induction false} ParseWrittenList(width: nat, ps: seq<RawPrefix>)
    requires AllWritable(width, ps)
    ensures ParsePrefixes(width, WritePrefixes(width, ps)) == Success(ClearAll(ps))
  {
    hide ParsePrefix, WritePrefix, ClearHosts;
    if ps != [] {
      var rest := WritePrefixes(width, ps[1..]);
      ParseWritten(width, ps[0], rest);
      ParseWrittenList(width, ps[1..]);
      assert (WritePrefix(ps[0]) + rest)[|WritePrefix(ps[0])|..] == rest;
      assert ClearAll(ps) == [ClearHosts(ps[0])] + ClearAll(ps[1..]);
    }
  }

  lemma {:induction false} WriteParsedList(width: nat, b: Bytes)
    requires ParsePrefixes(width, b).Success?
    ensures var ps := ParsePrefixes(width, b).value;
            && AllWritable(width, ps) && ClearAll(ps) == ps
            && WritePrefixes(width, ps) == MaskList(width, b) && |MaskList(width, b)| == |b|
    decreases |b|
  {
    hide ParsePrefix, WritePrefix, ClearHosts, MaskWire;
    if b != [] {
      WriteParsed(width, b);
      var (p, used) := ParsePrefix(width, b).value;
      WriteParsedList(width, b[used..]);
      var rest := ParsePrefixes(width, b[used..]).value;
      assert ([p] + rest)[1..] == rest;
      assert ClearAll([p] + rest) == [ClearHosts(p)] + ClearAll(rest);
    }
  }

  lemma SliceOfSlice(b: Bytes, pos: nat, i: nat, j: nat)
    requires i <= j && pos + j <= |b|
    ensures b[pos..][i..j] == b[pos + i..pos + j] && b[pos..][j..] == b[pos + j..]
  {
  }

  /** A list parsed as far as `done`, with `rest` for what follows. */
  predicate Extends<T(==)>(whole: Result<seq<T>>, done: seq<T>, rest: Result<seq<T>>) {
    match rest
    case Failure(e) => whole == Failure(e)
    case Success(more) => whole == Success(done + more)
  }

  lemma ExtendsStart<T>(whole: Result<seq<T>>)
    ensures Extends(whole, [], whole)
  {
    if whole.Success? {
      assert [] + whole.value == whole.value;
    }
  }

  /** One more element parsed. */
  lemma ExtendsStep<T>(whole: Result<seq<T>>, done: seq<T>, x: T, rest: Result<seq<T>>)
    requires Extends(whole, done, if rest.Failure? then rest else Success([x] + rest.value))
    ensures Extends(whole, done + [x], rest)
  {
    if rest.Success? {
      assert done + ([x] + rest.value) == done + [x] + rest.value;
    }
  }

  /** The loop that parses a list. */
  method ReadPrefixes(width: nat, b: Bytes) returns (r: Result<seq<RawPrefix>>)
    ensures r == ParsePrefixes(width, b)
  {
    hide ParsePrefix;
    var ps, pos := [], 0;
    assert b[0..] == b;
    ExtendsStart(ParsePrefixes(width, b));
    while pos < |b|
      invariant 0 <= pos <= |b|
      invariant Extends(ParsePrefixes(width, b), ps, ParsePrefixes(width, b[pos..]))
    {
      var one := ParsePrefix(width, b[pos..]);
      if one.Failure? {
        return Failure(one.error);
      }
      WriteParsed(width, b[pos..]);
      assert b[pos..][one.value.1..] == b[pos + one.value.1..];
      ExtendsStep(ParsePrefixes(width, b), ps, one.value.0, ParsePrefixes(width, b[pos + one.value.1..]));
      ps, pos := ps + [one.value.0], pos + one.value.1;
    }
    assert b[pos..] == [] && ps + [] == ps;
    return Success(ps);
  }

  // ----- the two families

  function ToRaw4(p: Prefix): RawPrefix {
    RawPrefix(p.len, [p.addr.b0, p.addr.b1, p.addr.b2, p.addr.b3])
  }

  function FromRaw4(r: RawPrefix): Prefix
    requires |r.addr| == 4
  {
    Prefix(Addr(r.addr[0], r.addr[1], r.addr[2], r.addr[3]), r.len)
  }

  function ToRaw6(p: Prefix6): RawPrefix {
    RawPrefix(p.len, p.addr)
  }

  function FromRaw6(r: RawPrefix): Prefix6 {
    Prefix6(r.addr, r.len)
  }

  /** For IPv4, clearing host bits is the normalisation of the routing table. */
  lemma ClearHostsNormalizes(p: Prefix)
    requires p.len <= 32
    ensures FromRaw4(ClearHosts(ToRaw4(p))) == Normalize(p)
  {
    MaskBytes(p.len);
    hide CidrToMask, PartialMask;
  }
}
