/**
 * The address allow-list of src/lib/ipUtils.js: which address a request comes from
 * (`getClientIP`), and whether that address is admitted by a staff member's list of allowed
 * entries (`validateIP`). An entry is a CIDR block when it contains '/', a wildcard pattern when
 * it contains '*', and otherwise an exact address. Addresses are strings throughout, as in the
 * source; `IpToInt` reads one as the unsigned 32-bit number JavaScript's bit operators give.
 * A wildcard entry is compiled as a regular expression; the model interprets two of its
 * characters, '.' and the `\d+` that stands for '*', and reads every other character
 * literally, which is what the regular expression does only when the entry holds none of
 * `\ ^ $ + ? ( ) [ ] { } |`.
 */
module IpUtils {
  import opened Wrappers
  import opened JsRuntime
  import opened JsBits

  // ---------------------------------------------------------------------------------------
  // getClientIP
  // ---------------------------------------------------------------------------------------

  /** What `getClientIP` reads from a request: five headers (absent or a string) and the
      socket addresses `req.connection?.remoteAddress`, `req.socket?.remoteAddress`, `req.ip`. */
  datatype Request = Request(
    forwardedFor: Option<string>,
    realIp: Option<string>,
    cfConnectingIp: Option<string>,
    clientIp: Option<string>,
    connectionAddress: Option<string>,
    socketAddress: Option<string>,
    requestIp: Option<string>)

  const LOOPBACK: string := "127.0.0.1"

  /** `a || b || ... || fallback` over optional strings: the first truthy candidate. */
  function FirstTruthy(candidates: seq<Option<string>>, fallback: string): (r: string)
    ensures (forall i :: 0 <= i < |candidates| ==> !Truthy(candidates[i])) ==> r == fallback
  {
    if candidates == [] then fallback
    else if Truthy(candidates[0]) then candidates[0].value
    else FirstTruthy(candidates[1..], fallback)
  }

  /** `FirstTruthy` picks a truthy candidate that no truthy candidate precedes. */
  lemma {:induction false} FirstTruthyPicksFirst(candidates: seq<Option<string>>, fallback: string, k: int)
    requires 0 <= k < |candidates| && Truthy(candidates[k])
    requires forall i :: 0 <= i < k ==> !Truthy(candidates[i])
    ensures FirstTruthy(candidates, fallback) == candidates[k].value
  {
    if k > 0 {
      FirstTruthyPicksFirst(candidates[1..], fallback, k - 1);
    }
  }

  /** The address a request comes from. */
  function GetClientIp(req: Request): string {
    if Truthy(req.forwardedFor) then Trim(Split(req.forwardedFor.value, ',')[0])
    else FirstTruthy([req.realIp, req.cfConnectingIp, req.clientIp, req.connectionAddress,
                      req.socketAddress, req.requestIp], LOOPBACK)
  }

  /** A non-empty X-Forwarded-For decides the address: its first comma-separated token,
      trimmed, which holds no comma and no surrounding whitespace. */
  lemma ForwardedForWins(req: Request)
    requires Truthy(req.forwardedFor)
    ensures var r := GetClientIp(req);
      r == Trim(Split(req.forwardedFor.value, ',')[0]) && ',' !in r
      && (r == [] || (!IsSpace(r[0]) && !IsSpace(r[|r| - 1])))
  {
    var token := Split(req.forwardedFor.value, ',')[0];
    if ',' in Trim(token) {
      TrimKeepsChars(token, ',');
    }
  }

  /** Without X-Forwarded-For, the first present of X-Real-IP, CF-Connecting-IP, X-Client-IP
      and the socket addresses is the address. */
  lemma FallbackOrder(req: Request, k: int)
    requires !Truthy(req.forwardedFor)
    requires 0 <= k < 6
    requires var c := [req.realIp, req.cfConnectingIp, req.clientIp, req.connectionAddress,
                       req.socketAddress, req.requestIp];
      Truthy(c[k]) && forall i :: 0 <= i < k ==> !Truthy(c[i])
    ensures var c := [req.realIp, req.cfConnectingIp, req.clientIp, req.connectionAddress,
                      req.socketAddress, req.requestIp];
      GetClientIp(req) == c[k].value
  {
    var c := [req.realIp, req.cfConnectingIp, req.clientIp, req.connectionAddress,
              req.socketAddress, req.requestIp];
    FirstTruthyPicksFirst(c, LOOPBACK, k);
  }

  /** A request with no usable header and no socket address is taken to be the loopback. */
  lemma LoopbackDefault(req: Request)
    requires !Truthy(req.forwardedFor) && !Truthy(req.realIp) && !Truthy(req.cfConnectingIp)
    requires !Truthy(req.clientIp) && !Truthy(req.connectionAddress)
    requires !Truthy(req.socketAddress) && !Truthy(req.requestIp)
    ensures GetClientIp(req) == LOOPBACK
  {
    var c := [req.realIp, req.cfConnectingIp, req.clientIp, req.connectionAddress,
              req.socketAddress, req.requestIp];
    assert forall i :: 0 <= i < |c| ==> !Truthy(c[i]);
  }

  // ---------------------------------------------------------------------------------------
  // ipToInt
  // ---------------------------------------------------------------------------------------

  /** One step of the `reduce` in `ipToInt`: `(acc << 8) + parseInt(octet, 10)`, with the
      piece already read by `parseInt`; the sum is a double addition, rounded. */
  function OctetStep(acc: Num, octet: Num): Num {
    var shifted := ToInt32(Int(ToInt32(acc) * 256));
    match octet
    case NaN => NaN
    case Int(p) => ToDouble(shifted + p)
    case Infinity(_) => octet
  }

  /** The `reduce` over the pieces, from the left, starting at 0. */
  function FoldOctets(octets: seq<Num>): Num {
    if octets == [] then Int(0) else OctetStep(FoldOctets(octets[..|octets| - 1]), octets[|octets| - 1])
  }

  /** `parseInt(piece, 10)` of every piece. */
  function ParseOctets(parts: seq<string>): (r: seq<Num>)
    ensures |r| == |parts| && forall i :: 0 <= i < |parts| ==> r[i] == ParseInt10(parts[i])
  {
    seq(|parts|, i requires 0 <= i < |parts| => ParseInt10(parts[i]))
  }

  /** `ipToInt(ip)`: the dot-separated pieces folded, the result taken as an unsigned 32-bit
      number. */
  function IpToInt(ip: string): (r: nat)
    ensures r < TWO_32
  {
    ToUint32(FoldOctets(ParseOctets(Split(ip, '.'))))
  }

  /** A piece beyond 2^53 is read with the precision of a double: the digits of 2^53 + 1,
      whose low 32 bits are 1, read as 2^53, whose low 32 bits are 0. */
  lemma IpToIntRoundsLongPieces(n: nat)
    requires n == TWO_53 + 1
    ensures IpToInt(NatToString(n)) == 0
  {
    TwoToThe53PlusOne(n);
    IpToIntOnePiece(n, TWO_53);
  }

  /** An address of digits alone is the value of the digits as a double, modulo 2^32. */
  lemma IpToIntOnePiece(n: nat, v: nat)
    requires ToDouble(n) == Int(v) && v <= TWO_53
    ensures IpToInt(NatToString(n)) == v % TWO_32
  {
    var s := NatToString(n);
    DigitsHaveNoDot(n);
    ParseNatToString(n);
    var octets := ParseOctets(Split(s, '.'));
    assert octets == [Int(v)] by {
      assert octets[0] == Int(v);
    }
    SingleOctet(v);
  }

  /** An address of one piece that reads as v, at most 2^53, folds to v. */
  lemma SingleOctet(v: nat)
    requires v <= TWO_53
    ensures FoldOctets([Int(v)]) == Int(v)
  {
    assert [Int(v)][..0] == [];
    ToDoubleExact(v);
  }

  /** The dotted-quad text of four numbers. */
  function Dotted(a: nat, b: nat, c: nat, d: nat): string {
    Join([NatToString(a), NatToString(b), NatToString(c), NatToString(d)], '.')
  }

  lemma ParseNat(n: nat)
    requires n <= TWO_53
    ensures ParseInt10(NatToString(n)) == Int(n)
  {
    ParseNatToString(n);
  }

  lemma DigitsHaveNoDot(n: nat)
    ensures '.' !in NatToString(n)
  {
    var s := NatToString(n);
    forall k | 0 <= k < |s| ensures s[k] != '.' {
      assert IsDigit(s[k]);
    }
  }

  /** The fold over four numbers below 256 is their base-256 value. */
  lemma FoldFour(a: nat, b: nat, c: nat, d: nat)
    requires a < 256 && b < 256 && c < 256 && d < 256
    ensures ToUint32(FoldOctets([Int(a), Int(b), Int(c), Int(d)]))
      == a * 0x100_0000 + b * 0x1_0000 + c * 0x100 + d
  {
    var octets := [Int(a), Int(b), Int(c), Int(d)];
    assert octets[..3] == [Int(a), Int(b), Int(c)];
    assert octets[..3][..2] == [Int(a), Int(b)];
    assert octets[..3][..2][..1] == [Int(a)];
    assert octets[..3][..2][..1][..0] == [];
    ToDoubleExact(a);
    assert FoldOctets([Int(a)]) == Int(a);
    ToDoubleExact(a * 256 + b);
    assert FoldOctets([Int(a), Int(b)]) == Int(a * 256 + b);
    var x := (a * 256 + b) * 256 + c;
    ToDoubleExact(x);
    assert FoldOctets([Int(a), Int(b), Int(c)]) == Int(x);
    LastOctetStep(x, d);
  }

  /** The last shift may wrap to a negative 32-bit value; `>>> 0` undoes the wrap. */
  lemma LastOctetStep(x: nat, d: nat)
    requires x < 0x100_0000 && d < 256
    ensures ToUint32(OctetStep(Int(x), Int(d))) == x * 256 + d
  {
    var y := x * 256;
    assert ToInt32(Int(x)) == x;
    var shifted := if y >= TWO_31 then y - TWO_32 else y;
    assert ToInt32(Int(y)) == shifted;
    ToDoubleExact(shifted + d);
  }

  /** A well-formed quad a.b.c.d reads as a·2^24 + b·2^16 + c·2^8 + d. */
  lemma IpToIntDotted(a: nat, b: nat, c: nat, d: nat)
    requires a < 256 && b < 256 && c < 256 && d < 256
    ensures IpToInt(Dotted(a, b, c, d)) == a * 0x100_0000 + b * 0x1_0000 + c * 0x100 + d
  {
    DottedOctets(a, b, c, d);
    FoldFour(a, b, c, d);
  }

  /** The pieces of a.b.c.d read as a, b, c and d. */
  lemma DottedOctets(a: nat, b: nat, c: nat, d: nat)
    requires a < 256 && b < 256 && c < 256 && d < 256
    ensures ParseOctets(Split(Dotted(a, b, c, d), '.')) == [Int(a), Int(b), Int(c), Int(d)]
  {
    var parts := [NatToString(a), NatToString(b), NatToString(c), NatToString(d)];
    DigitsHaveNoDot(a);
    DigitsHaveNoDot(b);
    DigitsHaveNoDot(c);
    DigitsHaveNoDot(d);
    JoinSplit(parts, '.');
    assert Split(Dotted(a, b, c, d), '.') == parts;
    FourOctets(parts, a, b, c, d);
  }

  /** The digits of four octets read back as those octets. */
  lemma FourOctets(parts: seq<string>, a: nat, b: nat, c: nat, d: nat)
    requires a < 256 && b < 256 && c < 256 && d < 256
    requires parts == [NatToString(a), NatToString(b), NatToString(c), NatToString(d)]
    ensures ParseOctets(parts) == [Int(a), Int(b), Int(c), Int(d)]
  {
    ParseFourPieces(parts);
    ParseNat(a);
    ParseNat(b);
    ParseNat(c);
    ParseNat(d);
  }

  /** `parts.map(...)` over four pieces, written out element by element. */
  lemma ParseFourPieces(parts: seq<string>)
    requires |parts| == 4
    ensures ParseOctets(parts) == [ParseInt10(parts[0]), ParseInt10(parts[1]), ParseInt10(parts[2]), ParseInt10(parts[3])]
  {
  }

  // ---------------------------------------------------------------------------------------
  // isIPInCIDR
  // ---------------------------------------------------------------------------------------

  /** `parseInt(prefixLength, 10)` for the second '/'-separated piece of the entry;
      `undefined` (no second piece) reads as NaN. */
  function PrefixLength(cidr: string): Num {
    var parts := Split(cidr, '/');
    if |parts| >= 2 then ParseInt10(parts[1]) else NaN
  }

  /** `32 - prefix`. */
  function ThirtyTwoMinus(prefix: Num): Num {
    match prefix
    case NaN => NaN
    case Int(p) => ToDouble(32 - p)
    case Infinity(negative) => Infinity(!negative)
  }

  /** `(0xffffffff << (32 - prefix)) >>> 0`. */
  function Mask(prefix: Num): (m: nat)
    ensures m < TWO_32
  {
    ToUint32(Int(JsShl(Int(0xFFFF_FFFF), ThirtyTwoMinus(prefix))))
  }

  /** The number of low bits the mask clears: the shift count of the `<<`. */
  function MaskShift(prefix: Num): (n: nat)
    ensures n < 32
  {
    ToUint32(ThirtyTwoMinus(prefix)) % 32
  }

  /** The shift count of an integral prefix length: 32 - p for p in 0..32 except that
      "/0" wraps to 0, 64 - p for p in 33..63. */
  lemma MaskShiftOf(p: int)
    requires 0 <= p <= 63
    ensures MaskShift(Int(p)) == if p == 0 then 0 else if p <= 32 then 32 - p else 64 - p
  {
    var d := ThirtyTwoMinus(Int(p));
    ToDoubleExact(32 - p);
    assert d == Int(32 - p);
    if p <= 32 {
      assert ToUint32(d) == 32 - p;
    } else {
      assert ToUint32(d) == TWO_32 + 32 - p;
      DivUnique(TWO_32 + 32 - p, 32, 0x7FF_FFFF, 64 - p);
    }
  }

  /** The prefix length of `network/suffix` is the parsed suffix. */
  lemma PrefixLengthOf(network: string, suffix: string)
    requires '/' !in network && '/' !in suffix
    ensures Split(network + "/" + suffix, '/')[0] == network
    ensures PrefixLength(network + "/" + suffix) == ParseInt10(suffix)
  {
    SplitCidr(network, suffix);
  }

  /** `isIPInCIDR(ip, cidr)`: the text before the first '/' is the network, the text after it
      up to any further '/' the prefix length; `(ipInt & mask) === (networkInt & mask)`. */
  predicate CidrMatches(ip: string, cidr: string) {
    var network := Split(cidr, '/')[0];
    var mask := Mask(PrefixLength(cidr));
    JsAnd(Int(IpToInt(ip)), Int(mask)) == JsAnd(Int(IpToInt(network)), Int(mask))
  }

  /** Masking keeps an address with its low `MaskShift` bits cleared. */
  lemma MaskClears(x: nat, prefix: Num)
    requires x < TWO_32
    ensures JsAnd(Int(x), Int(Mask(prefix))) == ToInt32(Int(ClearLow(x, MaskShift(prefix))))
    ensures ClearLow(x, MaskShift(prefix)) < TWO_32
  {
    var s := MaskShift(prefix);
    var m := Mask(prefix);
    ShiftedOnes(ThirtyTwoMinus(prefix));
    Pow2Values();
    assert m == Pow2(32) - Pow2(s);
    assert ToUint32(Int(x)) == x && ToUint32(Int(m)) == m;
    BitAndHigh(x, s, 32);
    assert JsAnd(Int(x), Int(m)) == ToInt32(Int(BitAnd(x, m, 32)));
  }

  /** An address is in a CIDR block exactly when it agrees with the network address once the
      low `MaskShift` bits of both are shifted out. */
  lemma CidrMatchesShift(ip: string, cidr: string)
    ensures var network := Split(cidr, '/')[0];
      var s := MaskShift(PrefixLength(cidr));
      CidrMatches(ip, cidr) <==> DropLow(IpToInt(ip), s) == DropLow(IpToInt(network), s)
  {
    var network := Split(cidr, '/')[0];
    var prefix := PrefixLength(cidr);
    var s := MaskShift(prefix);
    MaskClears(IpToInt(ip), prefix);
    MaskClears(IpToInt(network), prefix);
    ToInt32Injective(ClearLow(IpToInt(ip), s), ClearLow(IpToInt(network), s));
    ClearLowIff(IpToInt(ip), IpToInt(network), s);
  }

  lemma SplitCidr(network: string, suffix: string)
    requires '/' !in network && '/' !in suffix
    ensures Split(network + "/" + suffix, '/') == [network, suffix]
  {
    SplitCons(network, suffix, '/');
    assert network + "/" + suffix == network + ['/'] + suffix;
  }

  lemma DigitsHaveNoSlash(n: nat)
    ensures '/' !in NatToString(n)
  {
    var s := NatToString(n);
    forall k | 0 <= k < |s| ensures s[k] != '/' {
      assert IsDigit(s[k]);
    }
  }

  /** For a prefix p in 1..32 a CIDR entry admits an address exactly when its top p bits are
      those of the network: both give the same quotient by 2^(32 - p). */
  lemma CidrPrefixSemantics(ip: string, network: string, p: nat)
    requires 1 <= p <= 32 && '/' !in network
    ensures CidrMatches(ip, network + "/" + NatToString(p))
      <==> IpToInt(ip) / Pow2(32 - p) == IpToInt(network) / Pow2(32 - p)
  {
    var cidr := network + "/" + NatToString(p);
    DigitsHaveNoSlash(p);
    PrefixLengthOf(network, NatToString(p));
    ParseNat(p);
    MaskShiftOf(p);
    CidrMatchesShift(ip, cidr);
    DropLowDiv(IpToInt(ip), 32 - p);
    DropLowDiv(IpToInt(network), 32 - p);
  }

  /** A "/0" entry, like an entry whose prefix is not a number or too long a digit string to
      be a finite double, has the all-ones mask: it admits only the network address itself,
      because the shift count wraps modulo 32 and an infinity or NaN converts to 0. */
  lemma CidrSlashZeroIsExact(ip: string, network: string, suffix: string)
    requires '/' !in network && '/' !in suffix
    requires ParseInt10(suffix) == Int(0) || ParseInt10(suffix) == NaN || ParseInt10(suffix).Infinity?
    ensures CidrMatches(ip, network + "/" + suffix) <==> IpToInt(ip) == IpToInt(network)
  {
    var cidr := network + "/" + suffix;
    PrefixLengthOf(network, suffix);
    if ParseInt10(suffix) == Int(0) {
      MaskShiftOf(0);
    }
    assert MaskShift(PrefixLength(cidr)) == 0;
    CidrMatchesShift(ip, cidr);
    assert DropLow(IpToInt(ip), 0) == IpToInt(ip);
    assert DropLow(IpToInt(network), 0) == IpToInt(network);
  }

  /** A prefix length from 33 to 63 acts as that length less 32: "/40" is "/8". */
  lemma CidrLongPrefixWraps(ip: string, network: string, p: nat)
    requires 33 <= p <= 63 && '/' !in network
    ensures CidrMatches(ip, network + "/" + NatToString(p))
      <==> CidrMatches(ip, network + "/" + NatToString(p - 32))
  {
    DigitsHaveNoSlash(p);
    DigitsHaveNoSlash(p - 32);
    PrefixLengthOf(network, NatToString(p));
    PrefixLengthOf(network, NatToString(p - 32));
    ParseNat(p);
    ParseNat(p - 32);
    MaskShiftOf(p);
    MaskShiftOf(p - 32);
    CidrMatchesShift(ip, network + "/" + NatToString(p));
    CidrMatchesShift(ip, network + "/" + NatToString(p - 32));
  }

  /** With the network 10.0.0.0, a "/24" entry admits 10.0.0.5 and not 10.0.1.5 (the
      addresses as `IpToIntDotted` reads them). */
  lemma CidrExamples(ip: string, network: string)
    requires '/' !in network && IpToInt(network) == 0x0A00_0000
    ensures IpToInt(ip) == 0x0A00_0005 ==> CidrMatches(ip, network + "/24")
    ensures IpToInt(ip) == 0x0A00_0105 ==> !CidrMatches(ip, network + "/24")
  {
    Slash24(network);
    CidrPrefixSemantics(ip, network, 24);
    Pow2Values();
    DivUnique(0x0A00_0005, 256, 0x0A_0000, 5);
    DivUnique(0x0A00_0000, 256, 0x0A_0000, 0);
    DivUnique(0x0A00_0105, 256, 0x0A_0001, 5);
  }

  lemma Slash24(network: string)
    ensures network + "/" + NatToString(24) == network + "/24"
  {
    assert NatToString(24) == "24" by {
      assert NatToString(2) == "2";
    }
    assert "/" + "24" == "/24";
    assert network + "/" + "24" == network + ("/" + "24");
  }

  lemma DottedHasNoSlash(a: nat, b: nat, c: nat, d: nat)
    ensures '/' !in Dotted(a, b, c, d)
  {
    var parts := [NatToString(a), NatToString(b), NatToString(c), NatToString(d)];
    JoinHasNoChar(parts, '.', '/');
  }

  lemma {:induction false} JoinHasNoChar(parts: seq<string>, sep: char, c: char)
    requires |parts| >= 1 && c != sep
    requires forall i :: 0 <= i < |parts| ==> AllDigits(parts[i])
    requires !IsDigit(c)
    ensures c !in Join(parts, sep)
  {
    forall k | 0 <= k < |parts[0]| ensures parts[0][k] != c {
      assert IsDigit(parts[0][k]);
    }
    if |parts| > 1 {
      JoinHasNoChar(parts[1..], sep, c);
    }
  }

  // ---------------------------------------------------------------------------------------
  // Wildcard entries
  // ---------------------------------------------------------------------------------------

  predicate IsLineTerminator(c: char) {
    c == '\n' || c == '\r' || c == '\U{2028}' || c == '\U{2029}'
  }

  /** One pattern character against one address character: an unescaped '.' is the regular
      expression wildcard (any character but a line terminator); the model matches every
      other character literally. A regular expression gives that meaning to the characters
      of an IP address and to most others, but not to `\ ^ $ + ? ( ) [ ] { } |`: with those
      the source's answer can differ (the entry 10.0.(1|2).* admits 10.0.1.5 there) and
      `new RegExp` can throw (the entry 10.0.0.*) does). */
  predicate CharMatches(p: char, c: char) {
    if p == '.' then !IsLineTerminator(c) else p == c
  }

  /** `new RegExp('^' + pattern.replace(/\*\/g, '\\d+') + '$').test(s)` for a pattern free of
      the regular expression syntax `CharMatches` does not interpret: the whole of s matches,
      each '*' standing for one or more ASCII digits. */
  predicate WildMatch(pattern: string, s: string)
    decreases |pattern|, |s|, 1
  {
    if pattern == [] then s == []
    else if pattern[0] == '*' then DigitsThen(pattern, s)
    else s != [] && CharMatches(pattern[0], s[0]) && WildMatch(pattern[1..], s[1..])
  }

  /** `\d+` followed by the rest of the pattern, trying every length of the digit run. */
  predicate DigitsThen(pattern: string, s: string)
    requires pattern != [] && pattern[0] == '*'
    decreases |pattern|, |s|, 0
  {
    s != [] && IsDigit(s[0]) && (WildMatch(pattern[1..], s[1..]) || DigitsThen(pattern, s[1..]))
  }

  /** s begins with text that the pattern characters accept one by one. */
  predicate Agrees(pattern: string, s: string) {
    |s| >= |pattern| && forall i :: 0 <= i < |pattern| ==> CharMatches(pattern[i], s[i])
  }

  lemma AgreesStep(pattern: string, s: string)
    requires pattern != [] && s != []
    ensures Agrees(pattern, s) <==> CharMatches(pattern[0], s[0]) && Agrees(pattern[1..], s[1..])
  {
    if CharMatches(pattern[0], s[0]) && Agrees(pattern[1..], s[1..]) {
      forall i | 0 <= i < |pattern| ensures CharMatches(pattern[i], s[i]) {
        if i > 0 {
          assert CharMatches(pattern[1..][i - 1], s[1..][i - 1]);
        }
      }
    }
    if Agrees(pattern, s) {
      forall i | 0 <= i < |pattern[1..]| ensures CharMatches(pattern[1..][i], s[1..][i]) {
        assert CharMatches(pattern[i + 1], s[i + 1]);
      }
    }
  }

  lemma NoStarInTail(pattern: string)
    requires pattern != [] && '*' !in pattern
    ensures '*' !in pattern[1..]
  {
    forall k | 0 <= k < |pattern[1..]| ensures pattern[1..][k] != '*' {
      assert pattern[1..][k] == pattern[k + 1];
    }
  }

  /** A pattern without '*' matches exactly the strings of its length that agree with it
      character by character: the match is anchored at both ends. */
  lemma {:induction false} WildMatchNoStar(pattern: string, s: string)
    requires '*' !in pattern
    ensures WildMatch(pattern, s) <==> |s| == |pattern| && Agrees(pattern, s)
  {
    if pattern != [] && s != [] {
      NoStarInTail(pattern);
      WildMatchNoStar(pattern[1..], s[1..]);
      AgreesStep(pattern, s);
    }
  }

  /** A lone '*' matches any non-empty run of digits and nothing else. */
  lemma {:induction false} TrailingStar(s: string)
    ensures WildMatch("*", s) <==> |s| >= 1 && AllDigits(s)
  {
    assert WildMatch("*", s) == DigitsThen("*", s);
    if s != [] {
      assert "*"[1..] == [];
      TrailingStar(s[1..]);
      assert WildMatch("*", s[1..]) == DigitsThen("*", s[1..]);
      assert AllDigits(s) <==> IsDigit(s[0]) && AllDigits(s[1..]) by {
        if IsDigit(s[0]) && AllDigits(s[1..]) {
          forall i | 0 <= i < |s| ensures IsDigit(s[i]) {
            if i > 0 {
              assert s[i] == s[1..][i - 1];
            }
          }
        }
        if AllDigits(s) {
          forall i | 0 <= i < |s[1..]| ensures IsDigit(s[1..][i]) {
            assert s[1..][i] == s[i + 1];
          }
        }
      }
    }
  }

  /** A prefix without '*' followed by '*' matches a string that agrees with the prefix and
      continues with one or more digits, however many: the digit run has no upper bound. */
  lemma {:induction false} PrefixStar(prefix: string, s: string)
    requires '*' !in prefix
    ensures WildMatch(prefix + "*", s) <==>
      |s| > |prefix| && Agrees(prefix, s) && AllDigits(s[|prefix|..])
  {
    if prefix == [] {
      assert prefix + "*" == "*";
      TrailingStar(s);
      assert s[0..] == s;
    } else {
      assert (prefix + "*")[1..] == prefix[1..] + "*";
      assert (prefix + "*")[0] == prefix[0];
      NoStarInTail(prefix);
      if s != [] {
        PrefixStar(prefix[1..], s[1..]);
        AgreesStep(prefix, s);
        if |s| > |prefix| {
          assert s[1..][|prefix| - 1..] == s[|prefix|..];
        }
      }
    }
  }

  /** The pattern 192.168.1.* admits 192.168.1.5. */
  lemma WildcardAdmits()
    ensures WildMatch("192.168.1.*", "192.168.1.5")
  {
    var prefix := "192.168.1.";
    assert prefix + "*" == "192.168.1.*";
    PrefixStar(prefix, "192.168.1.5");
    assert "192.168.1.5"[10..] == "5";
  }

  /** The digit run of '*' has no upper bound: 192.168.1.* admits 192.168.1.12345. */
  lemma WildcardUnboundedDigits()
    ensures WildMatch("192.168.1.*", "192.168.1.12345")
  {
    var prefix := "192.168.1.";
    assert prefix + "*" == "192.168.1.*";
    PrefixStar(prefix, "192.168.1.12345");
    assert "192.168.1.12345"[10..] == "12345";
  }

  /** The dots of the pattern are not escaped: 192.168.1.* admits 192x168x1x5. */
  lemma WildcardUnescapedDots()
    ensures WildMatch("192.168.1.*", "192x168x1x5")
  {
    var prefix := "192.168.1.";
    assert prefix + "*" == "192.168.1.*";
    var t := "192x168x1x5";
    PrefixStar(prefix, t);
    assert t[10..] == "5";
    assert Agrees(prefix, t) by {
      forall i | 0 <= i < |prefix|
        ensures CharMatches(prefix[i], t[i])
      {
        if prefix[i] == '.' {
          assert t[i] == 'x';
        }
      }
    }
  }

  /** 192.168.1.* does not admit 192.168.2.5. */
  lemma WildcardRejects()
    ensures !WildMatch("192.168.1.*", "192.168.2.5")
  {
    var prefix := "192.168.1.";
    assert prefix + "*" == "192.168.1.*";
    PrefixStar(prefix, "192.168.2.5");
    assert !CharMatches(prefix[8], "192.168.2.5"[8]);
  }

  // ---------------------------------------------------------------------------------------
  // validateIP
  // ---------------------------------------------------------------------------------------

  /** How one allow-list entry judges an address: '/' makes it a CIDR block even when it also
      holds '*'; otherwise '*' makes it a wildcard pattern; otherwise it must equal the address. */
  predicate EntryMatches(client: string, entry: string) {
    if '/' in entry then CidrMatches(client, entry)
    else if '*' in entry then WildMatch(entry, client)
    else client == entry
  }

  /** `allowedIPs.some(...)`: some entry, tried from the first, admits the address. */
  predicate SomeEntryMatches(client: string, entries: seq<string>) {
    entries != [] && (EntryMatches(client, entries[0]) || SomeEntryMatches(client, entries[1..]))
  }

  /** `validateIP(clientIP, allowedIPs)`: an absent or empty list admits everyone. */
  predicate ValidateIp(client: string, allowed: Option<seq<string>>) {
    allowed.None? || |allowed.value| == 0 || SomeEntryMatches(client, allowed.value)
  }

  /** The `some` is a logical OR over the entries. */
  lemma {:induction false} SomeEntryMatchesIff(client: string, entries: seq<string>)
    ensures SomeEntryMatches(client, entries) <==>
      exists i :: 0 <= i < |entries| && EntryMatches(client, entries[i])
  {
    if entries != [] {
      SomeEntryMatchesIff(client, entries[1..]);
      if exists i :: 0 <= i < |entries| && EntryMatches(client, entries[i]) {
        var i :| 0 <= i < |entries| && EntryMatches(client, entries[i]);
        if i > 0 {
          assert EntryMatches(client, entries[1..][i - 1]);
        }
      }
      if SomeEntryMatches(client, entries[1..]) {
        var i :| 0 <= i < |entries[1..]| && EntryMatches(client, entries[1..][i]);
        assert EntryMatches(client, entries[i + 1]);
      }
    }
  }

  /** Without restrictions every address is admitted; with some, exactly the addresses that
      one of the entries admits. */
  lemma ValidateIpMeaning(client: string, allowed: Option<seq<string>>)
    ensures allowed.None? || allowed.value == [] ==> ValidateIp(client, allowed)
    ensures allowed.Some? && allowed.value != [] ==>
      (ValidateIp(client, allowed) <==>
        exists i :: 0 <= i < |allowed.value| && EntryMatches(client, allowed.value[i]))
  {
    if allowed.Some? {
      SomeEntryMatchesIff(client, allowed.value);
    }
  }

  /** An entry with neither '/' nor '*' admits exactly the identical address. */
  lemma ExactEntry(client: string, entry: string)
    requires '/' !in entry && '*' !in entry
    ensures EntryMatches(client, entry) <==> client == entry
  {
  }
}
