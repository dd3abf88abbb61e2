/** OAuth state tokens (auth/oauth_state.py): URL-safe base64 without padding, a signature after a
    dot, and an age limit. Base64 follows sections 4 and 5 of RFC 4648. Signing and JSON are
    parameters. */
module StateToken {
  import opened Options

  type Byte = b: int | 0 <= b < 256
  type Sextet = x: int | 0 <= x < 64

  // ----- Base64 -----

  /** A base64 alphabet: 64 symbols, none of them the pad, and how to read them. */
  datatype Alphabet = Alphabet(symbol: Sextet -> char, value: char -> Option<Sextet>)

  ghost predicate Proper(k: Alphabet) {
    forall x: Sextet :: k.value(k.symbol(x)) == Some(x) && k.symbol(x) != '=' && k.symbol(x) != '.'
  }

  function Symbol(x: Sextet): char {
    if x < 26 then 'A' + x as char
    else if x < 52 then 'a' + (x - 26) as char
    else if x < 62 then '0' + (x - 52) as char
    else if x == 62 then '-'
    else '_'
  }

  function Value(c: char): Option<Sextet> {
    if 'A' <= c <= 'Z' then Some((c - 'A') as int)
    else if 'a' <= c <= 'z' then Some((c - 'a') as int + 26)
    else if '0' <= c <= '9' then Some((c - '0') as int + 52)
    else if c == '-' then Some(62)
    else if c == '_' then Some(63)
    else None
  }

  /** The URL-safe alphabet, section 5 of RFC 4648. */
  const URL_SAFE := Alphabet(Symbol, Value)

  lemma UrlSafeIsProper()
    ensures Proper(URL_SAFE)
  {
  }

  function First(x: Byte): Sextet { x / 4 }
  function Second(x: Byte, y: Byte): Sextet { x % 4 * 16 + y / 16 }
  function Third(y: Byte, z: Byte): Sextet { y % 16 * 4 + z / 64 }
  function Fourth(z: Byte): Sextet { z % 64 }

  function ByteOne(a: Sextet, b: Sextet): Byte { a * 4 + b / 16 }
  function ByteTwo(b: Sextet, c: Sextet): Byte { b % 16 * 16 + c / 4 }
  function ByteThree(c: Sextet, d: Sextet): Byte { c % 4 * 64 + d }

  /** The bits of three bytes, cut into sextets and put together again. */
  lemma Bits(x: Byte, y: Byte, z: Byte)
    ensures ByteOne(First(x), Second(x, y)) == x
    ensures ByteTwo(Second(x, y), Third(y, z)) == y
    ensures ByteThree(Third(y, z), Fourth(z)) == z
  {
  }

  /** Groups of three bytes become four symbols; a last group of one or two is padded with "=". */
  function Encode(k: Alphabet, data: seq<Byte>): string {
    if data == [] then []
    else if |data| == 1 then
      [k.symbol(First(data[0])), k.symbol(Second(data[0], 0)), '=', '=']
    else if |data| == 2 then
      [k.symbol(First(data[0])), k.symbol(Second(data[0], data[1])), k.symbol(Third(data[1], 0)), '=']
    else
      [k.symbol(First(data[0])), k.symbol(Second(data[0], data[1])),
       k.symbol(Third(data[1], data[2])), k.symbol(Fourth(data[2]))]
      + Encode(k, data[3..])
  }

  /** Decoding of well-formed base64, None for anything else. */
  function Decode(k: Alphabet, s: string): Option<seq<Byte>> {
    if s == [] then Some([])
    else if |s| < 4 then None
    else
      var a, b, c, d := k.value(s[0]), k.value(s[1]), k.value(s[2]), k.value(s[3]);
      if a.None? || b.None? then None
      else if |s| == 4 && s[2] == '=' && s[3] == '=' then
        Some([ByteOne(a.value, b.value)])
      else if c.None? then None
      else if |s| == 4 && s[3] == '=' then
        Some([ByteOne(a.value, b.value), ByteTwo(b.value, c.value)])
      else if d.None? then None
      else
        var rest := Decode(k, s[4..]);
        if rest.None? then None
        else Some([ByteOne(a.value, b.value), ByteTwo(b.value, c.value), ByteThree(c.value, d.value)] + rest.value)
  }

  /** rstrip("="). */
  function Stripped(s: string): string {
    if s != [] && s[|s| - 1] == '=' then Stripped(s[..|s| - 1]) else s
  }

  /** The padding _b64_decode computes from the length alone. */
  function Padding(n: nat): string {
    if n % 4 == 0 then [] else seq(4 - n % 4, _ => '=')
  }

  function B64Encode(data: seq<Byte>): string {
    Stripped(Encode(URL_SAFE, data))
  }

  function B64Decode(s: string): Option<seq<Byte>> {
    Decode(URL_SAFE, s + Padding(|s|))
  }

  lemma DecodeGroup(k: Alphabet, a: Sextet, b: Sextet, c: Sextet, d: Sextet, rest: string)
    requires Proper(k)
    ensures Decode(k, [k.symbol(a), k.symbol(b), k.symbol(c), k.symbol(d)] + rest) ==
      match Decode(k, rest)
      case None => None
      case Some(bytes) => Some([ByteOne(a, b), ByteTwo(b, c), ByteThree(c, d)] + bytes)
    ensures Decode(k, [k.symbol(a), k.symbol(b), k.symbol(c), '=']) == Some([ByteOne(a, b), ByteTwo(b, c)])
    ensures Decode(k, [k.symbol(a), k.symbol(b), '=', '=']) == Some([ByteOne(a, b)])
  {
  }

  lemma DecodeOne(k: Alphabet, x: Byte)
    requires Proper(k)
    ensures Decode(k, Encode(k, [x])) == Some([x])
  {
  }

  lemma DecodeTwo(k: Alphabet, x: Byte, y: Byte)
    requires Proper(k)
    ensures Decode(k, Encode(k, [x, y])) == Some([x, y])
  {
    var a, b, c := First(x), Second(x, y), Third(y, 0);
    Bits(x, y, 0);
    DecodeGroup(k, a, b, c, 0, []);
    assert Encode(k, [x, y]) == [k.symbol(a), k.symbol(b), k.symbol(c), '='];
  }

  lemma DecodeThree(k: Alphabet, x: Byte, y: Byte, z: Byte, rest: seq<Byte>)
    requires Proper(k) && Decode(k, Encode(k, rest)) == Some(rest)
    ensures Decode(k, Encode(k, [x, y, z] + rest)) == Some([x, y, z] + rest)
  {
    var a, b, c, d := First(x), Second(x, y), Third(y, z), Fourth(z);
    Bits(x, y, z);
    DecodeGroup(k, a, b, c, d, Encode(k, rest));
    assert ([x, y, z] + rest)[3..] == rest;
    assert Encode(k, [x, y, z] + rest) == [k.symbol(a), k.symbol(b), k.symbol(c), k.symbol(d)] + Encode(k, rest);
  }

  lemma {:induction false} DecodeEncode(k: Alphabet, data: seq<Byte>)
    requires Proper(k)
    ensures Decode(k, Encode(k, data)) == Some(data)
  {
    if |data| == 1 {
      assert data == [data[0]];
      DecodeOne(k, data[0]);
    } else if |data| == 2 {
      assert data == [data[0], data[1]];
      DecodeTwo(k, data[0], data[1]);
    } else if |data| >= 3 {
      DecodeEncode(k, data[3..]);
      DecodeThree(k, data[0], data[1], data[2], data[3..]);
      assert data == [data[0], data[1], data[2]] + data[3..];
    }
  }

  /** How many symbols n bytes take, before padding. */
  function Symbols(n: nat): nat {
    n / 3 * 4 + if n % 3 == 0 then 0 else n % 3 + 1
  }

  /** n symbols and then padding up to a multiple of four; nothing else. */
  ghost predicate Shaped(full: string, n: nat) {
    && n <= |full| < n + 3 && |full| % 4 == 0
    && (forall i :: 0 <= i < n ==> full[i] != '=' && full[i] != '.')
    && (forall i :: n <= i < |full| ==> full[i] == '=')
  }

  lemma GroupBefore(group: string, rest: string, n: nat)
    requires |group| == 4 && Shaped(rest, n)
    requires forall i :: 0 <= i < 4 ==> group[i] != '=' && group[i] != '.'
    ensures Shaped(group + rest, n + 4)
  {
    forall i | 4 <= i < 4 + |rest|
      ensures (group + rest)[i] == rest[i - 4]
    {
    }
  }

  lemma {:induction false} EncodeShape(k: Alphabet, data: seq<Byte>)
    requires Proper(k)
    ensures Shaped(Encode(k, data), Symbols(|data|))
  {
    if |data| >= 3 {
      EncodeShape(k, data[3..]);
      var a, b := First(data[0]), Second(data[0], data[1]);
      var c, d := Third(data[1], data[2]), Fourth(data[2]);
      GroupBefore([k.symbol(a), k.symbol(b), k.symbol(c), k.symbol(d)], Encode(k, data[3..]), Symbols(|data| - 3));
    }
  }

  lemma {:induction false} StripTail(s: string, n: nat)
    requires n <= |s|
    requires n > 0 ==> s[n - 1] != '='
    requires forall i :: n <= i < |s| ==> s[i] == '='
    ensures Stripped(s) == s[..n]
    decreases |s|
  {
    if n < |s| {
      StripTail(s[..|s| - 1], n);
      assert s[..|s| - 1][..n] == s[..n];
    } else {
      assert s[..n] == s;
    }
  }

  lemma StrippedThenPadded(k: Alphabet, data: seq<Byte>)
    requires Proper(k)
    ensures var s := Stripped(Encode(k, data));
      s + Padding(|s|) == Encode(k, data) && '.' !in s && '=' !in s
  {
    EncodeShape(k, data);
    var full, n := Encode(k, data), Symbols(|data|);
    StripTail(full, n);
    assert full == full[..n] + full[n..];
    TailIsPadding(full, n);
  }

  lemma TailIsPadding(full: string, n: nat)
    requires Shaped(full, n)
    ensures full[n..] == Padding(n)
  {
  }

  /** Round trip for all byte strings: stripping the padding loses nothing, as the length alone
      restores it. */
  lemma {:induction false} B64RoundTrip(data: seq<Byte>)
    ensures B64Decode(B64Encode(data)) == Some(data)
    ensures '.' !in B64Encode(data) && '=' !in B64Encode(data)
  {
    UrlSafeIsProper();
    StrippedThenPadded(URL_SAFE, data);
    DecodeEncode(URL_SAFE, data);
  }

  /** The symbols in their order, section 5 of RFC 4648: capitals, small letters, digits, "-", "_". */
  lemma {:induction false} SymbolsInOrder(v: Sextet)
    ensures Symbol(0) == 'A' && Symbol(26) == 'a' && Symbol(52) == '0' && Symbol(62) == '-' && Symbol(63) == '_'
    ensures v != 0 && v != 26 && v != 52 && v < 62 ==> Symbol(v) as int == Symbol(v - 1) as int + 1
  {
  }

  /** What is sent is the full encoding without its padding. */
  lemma {:induction false} SentIsPrefix(data: seq<Byte>)
    ensures Symbols(|data|) <= |Encode(URL_SAFE, data)|
    ensures B64Encode(data) == Encode(URL_SAFE, data)[..Symbols(|data|)]
  {
    UrlSafeIsProper();
    EncodeShape(URL_SAFE, data);
    StripTail(Encode(URL_SAFE, data), Symbols(|data|));
  }

  /** Three bytes and their four symbols are one number, written in base 256 and in base 64 ... */
  lemma {:induction false} ThreeBytes(x: Byte, y: Byte, z: Byte) returns (a: Sextet, b: Sextet, c: Sextet, d: Sextet)
    ensures B64Encode([x, y, z]) == [Symbol(a), Symbol(b), Symbol(c), Symbol(d)]
    ensures a * 262144 + b * 4096 + c * 64 + d == x * 65536 + y * 256 + z
  {
    a, b, c, d := First(x), Second(x, y), Third(y, z), Fourth(z);
    SentIsPrefix([x, y, z]);
    assert Encode(URL_SAFE, [x, y, z]) == [Symbol(a), Symbol(b), Symbol(c), Symbol(d)] + Encode(URL_SAFE, []);
  }

  /** ... one or two bytes that are left over are filled up with zero bits ... */
  lemma {:induction false} LastBytes(x: Byte, y: Byte) returns (a: Sextet, b: Sextet, c: Sextet, d: Sextet)
    ensures B64Encode([x, y]) == [Symbol(a), Symbol(b), Symbol(c)]
    ensures a * 4096 + b * 64 + c == (x * 256 + y) * 4
    ensures B64Encode([x]) == [Symbol(a), Symbol(d)] && a * 64 + d == x * 16
  {
    a, b, c, d := First(x), Second(x, y), Third(y, 0), Second(x, 0);
    SentIsPrefix([x, y]);
    SentIsPrefix([x]);
  }

  /** ... and longer data is encoded group by group. */
  lemma {:induction false} GroupByGroup(data: seq<Byte>)
    requires |data| >= 3
    ensures B64Encode(data) == B64Encode(data[..3]) + B64Encode(data[3..])
  {
    var group, rest := data[..3], data[3..];
    SentIsPrefix(data);
    SentIsPrefix(group);
    SentIsPrefix(rest);
    assert group[3..] == [] && group[0] == data[0] && group[1] == data[1] && group[2] == data[2];
    assert Encode(URL_SAFE, data) == Encode(URL_SAFE, group) + Encode(URL_SAFE, rest);
    assert Symbols(|data|) == 4 + Symbols(|rest|);
  }

  // ----- Tokens -----

  datatype Payload = Payload(provider: string, ts: int, nonce: string, maxAge: int)

  /** JSON and HMAC under the configured secret: dumps/loads are inverse, and a hex digest
      is ASCII without a dot. */
  datatype Crypto = Crypto(
    dumps: Payload -> seq<Byte>,
    loads: seq<Byte> -> Option<Payload>,
    sign: string -> string)

  ghost predicate Sound(k: Crypto) {
    && (forall p :: k.loads(k.dumps(p)) == Some(p))
    && (forall s :: '.' !in k.sign(s) && Ascii(k.sign(s)))
  }

  predicate Ascii(s: string) {
    forall i :: 0 <= i < |s| ==> s[i] as int < 128
  }

  /** NotAscii is the TypeError of compare_digest, which takes ASCII strings only. */
  datatype TokenError = Empty | BadFormat | NotAscii | BadSignature | Malformed | Expired

  function Generate(k: Crypto, p: Payload): string {
    var body := B64Encode(k.dumps(p));
    body + ['.'] + k.sign(body)
  }

  /** token.split("."). */
  function Split(s: string): seq<string> {
    if s == [] then [[]]
    else if s[0] == '.' then [[]] + Split(s[1..])
    else
      var rest := Split(s[1..]);
      [[s[0]] + (if rest == [] then [] else rest[0])] + (if rest == [] then [] else rest[1..])
  }

  function Verify(k: Crypto, token: string, now: int, maxAge: int): Result<Payload, TokenError> {
    if token == "" then Err(Empty)
    else
      var parts := Split(token);
      if |parts| != 2 then Err(BadFormat)
      else if !Ascii(parts[1]) then Err(NotAscii)
      else if parts[1] != k.sign(parts[0]) then Err(BadSignature)
      else
        var data := B64Decode(parts[0]);
        if data.None? || k.loads(data.value).None? then Err(Malformed)
        else
          var p := k.loads(data.value).value;
          if now - p.ts > maxAge then Err(Expired) else Ok(p)
  }

  function Dots(s: string): nat {
    if s == [] then 0 else (if s[0] == '.' then 1 else 0) + Dots(s[1..])
  }

  lemma {:induction false} NoDots(s: string)
    requires '.' !in s
    ensures Split(s) == [s] && Dots(s) == 0
  {
    if s != [] {
      NoDots(s[1..]);
      assert s == [s[0]] + s[1..];
    }
  }

  lemma {:induction false} OneDot(a: string, b: string)
    requires '.' !in a && '.' !in b
    ensures Split(a + ['.'] + b) == [a, b] && Dots(a + ['.'] + b) == 1
  {
    var s := a + ['.'] + b;
    if a == [] {
      assert s[1..] == b;
      NoDots(b);
    } else {
      assert s[1..] == a[1..] + ['.'] + b;
      OneDot(a[1..], b);
      assert a == [a[0]] + a[1..];
    }
  }

  /** A generated token has exactly one dot, and verifying it gives the payload back if its age
      is within the limit, and says it expired otherwise; no other outcome is possible. */
  lemma TokenRoundTrip(k: Crypto, p: Payload, now: int, maxAge: int)
    requires Sound(k)
    ensures Dots(Generate(k, p)) == 1
    ensures Verify(k, Generate(k, p), now, maxAge) == if now - p.ts <= maxAge then Ok(p) else Err(Expired)
  {
    var data := k.dumps(p);
    var body := B64Encode(data);
    B64RoundTrip(data);
    OneDot(body, k.sign(body));
  }

  /** Verification accepts nothing but a correctly signed payload of the right age. */
  lemma AcceptedMeansSigned(k: Crypto, token: string, now: int, maxAge: int)
    requires Verify(k, token, now, maxAge).Ok?
    ensures exists body ::
      && token == body + ['.'] + k.sign(body)
      && B64Decode(body).Some?
      && k.loads(B64Decode(body).value) == Some(Verify(k, token, now, maxAge).value)
      && now - Verify(k, token, now, maxAge).value.ts <= maxAge
  {
    JoinSplit(token);
    assert token == Split(token)[0] + ['.'] + Split(token)[1];
  }

  /** What becomes of a body and a signature: a signature outside ASCII raises, any other one but the
      right one is refused, and only then is the payload looked at. */
  lemma {:induction false} SignatureDecides(k: Crypto, body: string, sig: string, now: int, maxAge: int)
    requires Sound(k) && '.' !in body && '.' !in sig
    ensures var result := Verify(k, body + ['.'] + sig, now, maxAge);
      && (result == Err(NotAscii) <==> exists c :: c in sig && c as int > 127)
      && (result == Err(BadSignature) <==> sig != k.sign(body) && forall c :: c in sig ==> c as int <= 127)
      && (result == Err(Malformed) <==>
            sig == k.sign(body) && (B64Decode(body) == None || k.loads(B64Decode(body).value) == None))
  {
    OneDot(body, sig);
    if i :| 0 <= i < |sig| && sig[i] as int >= 128 {
      assert sig[i] in sig;
    }
  }

  /** A token without exactly one dot is refused at once. */
  lemma {:induction false} OneDotNeeded(k: Crypto, token: string, now: int, maxAge: int)
    ensures Verify(k, token, now, maxAge) == Err(Empty) <==> token == ""
    ensures Verify(k, token, now, maxAge) == Err(BadFormat) <==> token != "" && Dots(token) != 1
  {
    DotsSplit(token);
  }

  lemma {:induction false} DotsSplit(s: string)
    ensures |Split(s)| == Dots(s) + 1
  {
    if s != [] {
      DotsSplit(s[1..]);
    }
  }

  lemma {:induction false} JoinSplit(s: string)
    ensures |Split(s)| >= 1
    ensures |Split(s)| == 1 ==> s == Split(s)[0]
    ensures |Split(s)| == 2 ==> s == Split(s)[0] + ['.'] + Split(s)[1]
  {
    if s != [] {
      JoinSplit(s[1..]);
      assert s == [s[0]] + s[1..];
    }
  }
}
