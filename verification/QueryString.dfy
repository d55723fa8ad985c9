/** Percent-encoding (section 2.1 of RFC 3986) and the splitting of a request target into its path
    and its parameters (`util::url_encode`, `util::url_decode`, `util::parse_request`). */
module QueryString {
  import opened Sequences
  import opened LogLines

  const PERCENT: Byte := 37
  const AMPERSAND: Byte := 38
  const EQUALS: Byte := 61
  const QUESTION: Byte := 63

  // ----- Percent-encoding

  predicate Unreserved(c: Byte) {
    48 <= c <= 57 || 65 <= c <= 90 || 97 <= c <= 122 || c in {45, 95, 46, 126}
  }

  function HexDigit(n: nat): Byte
    requires n < 16
  {
    if n < 10 then 48 + n else 55 + n
  }

  function Encoded(s: Bytes): Bytes {
    if s == [] then []
    else
      var n := |s| - 1;
      Encoded(s[..n]) + (if Unreserved(s[n]) then [s[n]] else [PERCENT, HexDigit(s[n] / 16), HexDigit(s[n] % 16)])
  }

  method UrlEncode(url: Bytes) returns (encoded: Bytes)
    ensures encoded == Encoded(url)
  {
    encoded := [];
    for i := 0 to |url|
      invariant encoded == Encoded(url[..i])
    {
      var c := url[i];
      assert url[..i + 1][..i] == url[..i];
      if Unreserved(c) {
        encoded := encoded + [c];
      } else {
        encoded := encoded + [PERCENT, HexDigit(c / 16), HexDigit(c % 16)];
      }
    }
    assert url[..|url|] == url;
  }

  predicate IsHex(c: Byte) {
    48 <= c <= 57 || 65 <= c <= 70 || 97 <= c <= 102
  }

  function HexValue(c: Byte): (n: nat)
    requires IsHex(c)
    ensures n < 16
  {
    if c <= 57 then c - 48 else if c <= 70 then c - 55 else c - 87
  }

  /** The byte a pair after a percent sign stands for; `odd` is what the stream extraction makes of
      a pair that is not two hexadecimal digits. */
  function PairValue(odd: (Byte, Byte) -> Byte, a: Byte, b: Byte): Byte {
    if IsHex(a) && IsHex(b) then HexValue(a) * 16 + HexValue(b) else odd(a, b)
  }

  function Decoded(odd: (Byte, Byte) -> Byte, s: Bytes): Bytes {
    if s == [] then []
    else if s[0] == PERCENT && |s| > 2 then [PairValue(odd, s[1], s[2])] + Decoded(odd, s[3..])
    else [s[0]] + Decoded(odd, s[1..])
  }

  lemma DecodedAt(odd: (Byte, Byte) -> Byte, s: Bytes, i: nat)
    requires i < |s|
    ensures Decoded(odd, s[i..]) ==
      if s[i] == PERCENT && i + 2 < |s| then [PairValue(odd, s[i + 1], s[i + 2])] + Decoded(odd, s[i + 3..])
      else [s[i]] + Decoded(odd, s[i + 1..])
  {
    assert s[i..][1..] == s[i + 1..];
    assert i + 2 < |s| ==> s[i..][3..] == s[i + 3..];
  }

  lemma NothingDecoded(odd: (Byte, Byte) -> Byte)
    ensures Decoded(odd, []) == []
  {
  }

  method UrlDecode(odd: (Byte, Byte) -> Byte, encoded: Bytes) returns (decoded: Bytes)
    ensures decoded == Decoded(odd, encoded)
  {
    hide PairValue, Decoded;
    decoded := [];
    var i := 0;
    assert encoded[0..] == encoded;
    while i < |encoded|
      invariant i <= |encoded| && Decoded(odd, encoded) == decoded + Decoded(odd, encoded[i..])
    {
      DecodedAt(odd, encoded, i);
      ghost var before := decoded;
      if encoded[i] == PERCENT && i + 2 < |encoded| {
        decoded := decoded + [PairValue(odd, encoded[i + 1], encoded[i + 2])];
        i := i + 2;
      } else {
        decoded := decoded + [encoded[i]];
      }
      i := i + 1;
      Assoc(before, [decoded[|before|]], Decoded(odd, encoded[i..]));
    }
    assert encoded[i..] == [];
    NothingDecoded(odd);
  }

  /** Encoding puts no delimiter into its result. */
  lemma {:induction false} EncodedIsPlain(s: Bytes)
    ensures forall c :: c in Encoded(s) ==> c !in {AMPERSAND, EQUALS, QUESTION}
  {
    if s != [] {
      EncodedIsPlain(s[..|s| - 1]);
    }
  }

  lemma EncodedFirst(s: Bytes)
    requires s != []
    ensures Encoded(s) ==
      (if Unreserved(s[0]) then [s[0]] else [PERCENT, HexDigit(s[0] / 16), HexDigit(s[0] % 16)]) + Encoded(s[1..])
    decreases |s|
  {
    var n := |s| - 1;
    if n > 0 {
      EncodedFirst(s[..n]);
      assert s[..n][1..] == s[1..][..n - 1];
    }
  }

  /** Decoding undoes encoding, for every byte string. */
  lemma {:induction false} DecodeEncode(odd: (Byte, Byte) -> Byte, s: Bytes)
    ensures Decoded(odd, Encoded(s)) == s
    decreases |s|
  {
    if s != [] {
      EncodedFirst(s);
      var t := Encoded(s);
      DecodeEncode(odd, s[1..]);
      if Unreserved(s[0]) {
        assert t[1..] == Encoded(s[1..]);
      } else {
        assert t[3..] == Encoded(s[1..]);
      }
    }
  }

  // ----- What encoded text looks like

  /** The unreserved characters of section 2.3 of RFC 3986. */
  predicate InUnreserved(c: Byte) {
    || 'a' as int <= c <= 'z' as int || 'A' as int <= c <= 'Z' as int || '0' as int <= c <= '9' as int
    || c == '-' as int || c == '.' as int || c == '_' as int || c == '~' as int
  }

  const UPPER_DIGITS: string := "0123456789ABCDEF"
  const LOWER_DIGITS: string := "0123456789abcdef"

  /** Unreserved characters, and percent signs with two upper-case hexadecimal digits. */
  predicate PercentForm(s: Bytes) {
    s == [] ||
    if s[0] == '%' as int
    then |s| >= 3 && s[1] as char in UPPER_DIGITS && s[2] as char in UPPER_DIGITS && PercentForm(s[3..])
    else InUnreserved(s[0]) && PercentForm(s[1..])
  }

  lemma UpperDigit(n: nat)
    requires n < 16
    ensures HexDigit(n) == UPPER_DIGITS[n] as int
  {
  }

  /** Every byte by itself: an unreserved one stays, any other becomes its percent triple. */
  lemma EncodedByte(c: Byte)
    ensures Encoded([c]) ==
      if InUnreserved(c) then [c] else ['%' as int, UPPER_DIGITS[c / 16] as int, UPPER_DIGITS[c % 16] as int]
  {
    assert Encoded([]) == [] && [c][..0] == [];
    UpperDigit(c / 16);
    UpperDigit(c % 16);
  }

  lemma {:induction false} EncodedOfAppend(a: Bytes, b: Bytes)
    ensures Encoded(a + b) == Encoded(a) + Encoded(b)
    decreases |b|
  {
    if b == [] {
      assert a + b == a;
    } else {
      var n := |b| - 1;
      assert (a + b)[..|a| + n] == a + b[..n];
      EncodedOfAppend(a, b[..n]);
    }
  }

  lemma {:induction false} EncodedIsPercentForm(s: Bytes)
    ensures PercentForm(Encoded(s))
    decreases |s|
  {
    if s != [] {
      EncodedFirst(s);
      EncodedIsPercentForm(s[1..]);
      UpperDigit(s[0] / 16);
      UpperDigit(s[0] % 16);
      var t := Encoded(s);
      if Unreserved(s[0]) {
        assert t[1..] == Encoded(s[1..]);
      } else {
        assert t[3..] == Encoded(s[1..]);
      }
    }
  }

  /** `x` is the digit of value `n` in either case. */
  predicate DigitOf(x: Byte, n: nat)
    requires n < 16
  {
    x as char == UPPER_DIGITS[n] || x as char == LOWER_DIGITS[n]
  }

  lemma DigitValue(x: Byte, n: nat)
    requires n < 16 && DigitOf(x, n)
    ensures IsHex(x) && HexValue(x) == n
  {
  }

  /** Decoding takes digits of either case. */
  lemma DecodedTriple(odd: (Byte, Byte) -> Byte, c: Byte, x: Byte, y: Byte, t: Bytes)
    requires DigitOf(x, c / 16) && DigitOf(y, c % 16)
    ensures Decoded(odd, [37, x, y] + t) == [c] + Decoded(odd, t)
  {
    hide DigitOf, IsHex, HexValue;
    DigitValue(x, c / 16);
    DigitValue(y, c % 16);
    assert ([37, x, y] + t)[3..] == t;
  }

  /** It copies other bytes, and a percent sign that has not two bytes after it. */
  lemma DecodedCopy(odd: (Byte, Byte) -> Byte, c: Byte, t: Bytes)
    requires c != 37 || |t| < 2
    ensures Decoded(odd, [c] + t) == [c] + Decoded(odd, t)
  {
    assert ([c] + t)[1..] == t;
  }

  // ----- Splitting a request target

  type Param = (Bytes, Bytes)

  /** The first position of `c` at or after `from`, or the length. */
  function Find(s: Bytes, c: Byte): (k: nat)
    ensures k <= |s| && (k < |s| ==> s[k] == c) && forall i :: 0 <= i < k ==> s[i] != c
  {
    if s == [] || s[0] == c then 0 else 1 + Find(s[1..], c)
  }

  lemma FindIs(s: Bytes, c: Byte, k: nat)
    requires k <= |s| && (forall i :: 0 <= i < k ==> s[i] != c) && (k < |s| ==> s[k] == c)
    ensures Find(s, c) == k
  {
  }

  function Pair(pair: Bytes): Param {
    var eq := Find(pair, EQUALS);
    if eq < |pair| then (pair[..eq], pair[eq + 1..]) else (pair, [])
  }

  /** The parameters a query lists, in order and with repetitions. */
  function Pairs(query: Bytes): seq<Param> {
    if query == [] then []
    else
      var amp := Find(query, AMPERSAND);
      [Pair(query[..amp])] + (if amp == |query| then [] else Pairs(query[amp + 1..]))
  }

  /** `map::emplace` keeps the value a key already has. */
  function Emplaced(params: map<Bytes, Bytes>, ps: seq<Param>): map<Bytes, Bytes>
    decreases |ps|
  {
    if ps == [] then params
    else Emplaced(if ps[0].0 in params then params else params[ps[0].0 := ps[0].1], ps[1..])
  }

  method ParseRequest(uri: Bytes, path0: Bytes, params0: map<Bytes, Bytes>)
    returns (ok: bool, path: Bytes, params: map<Bytes, Bytes>)
    ensures ok <==> uri != []
    ensures !ok ==> path == path0 && params == params0
    ensures ok ==> path == uri[..Find(uri, QUESTION)]
    ensures Find(uri, QUESTION) == |uri| ==> params == params0
    ensures Find(uri, QUESTION) < |uri| ==> params == Emplaced(params0, Pairs(uri[Find(uri, QUESTION) + 1..]))
  {
    ok, path, params := false, path0, params0;
    if uri == [] {
      return;
    }
    ok := true;
    var pos := Find(uri, QUESTION);
    if pos == |uri| {
      path := uri;
      return;
    }
    path := uri[..pos];
    var query := uri[pos + 1..];
    ghost var all := Emplaced(params0, Pairs(query));
    while query != []
      invariant all == Emplaced(params, Pairs(query))
      decreases |query|
    {
      var amp := Find(query, AMPERSAND);
      var pair := query[..amp];
      var eq := Find(pair, EQUALS);
      var key, value := pair, [];
      if eq < |pair| {
        key, value := pair[..eq], pair[eq + 1..];
      }
      assert Pairs(query)[0] == (key, value);
      assert Pairs(query)[1..] == if amp == |query| then [] else Pairs(query[amp + 1..]);
      if key !in params {
        params := params[key := value];
      }
      if amp == |query| {
        break;
      }
      query := query[amp + 1..];
    }
  }

  lemma PairOf(k: Bytes, v: Bytes)
    requires 61 !in k
    ensures Pair(k + [61] + v) == (k, v) && Pair(k) == (k, [])
  {
    var x := k + [61] + v;
    FindIs(x, 61, |k|);
    FindIs(k, 61, |k|);
    assert x[..|k|] == k && x[|k| + 1..] == v;
  }

  lemma PairsFront(x: Bytes, rest: Bytes)
    requires 38 !in x
    ensures x != [] ==> Pairs(x) == [Pair(x)]
    ensures Pairs(x + [38] + rest) == [Pair(x)] + Pairs(rest)
  {
    var q := x + [38] + rest;
    FindIs(x, 38, |x|);
    FindIs(q, 38, |x|);
    assert x[..|x|] == x && q[..|x|] == x && q[|x| + 1..] == rest;
    assert [Pair(x)] + [] == [Pair(x)];
    if rest == [] {
      assert Pairs(rest) == [];
    }
  }

  /** A parameter at the front of a query: `k=v`, where only the first equals sign counts, or `k`
      alone, which has the empty value; then the next ones after an ampersand. */
  lemma FirstParam(k: Bytes, v: Bytes, rest: Bytes)
    requires 38 !in k && 61 !in k && 38 !in v
    ensures Pairs(k + [61] + v) == [(k, v)]
    ensures Pairs(k + [61] + v + [38] + rest) == [(k, v)] + Pairs(rest)
    ensures k != [] ==> Pairs(k) == [(k, [])]
    ensures Pairs(k + [38] + rest) == [(k, [])] + Pairs(rest)
  {
    PairOf(k, v);
    var x := k + [61] + v;
    assert forall i :: 0 <= i < |x| ==> x[i] != 38;
    PairsFront(x, rest);
    PairsFront(k, rest);
  }

  // ----- Round trip

  function Rendered(p: Param): Bytes {
    Encoded(p.0) + [EQUALS] + Encoded(p.1)
  }

  /** What a client sends for a list of parameters. */
  function Query(ps: seq<Param>): Bytes {
    if ps == [] then []
    else if |ps| == 1 then Rendered(ps[0])
    else Rendered(ps[0]) + [AMPERSAND] + Query(ps[1..])
  }

  function EncodedPairs(ps: seq<Param>): (es: seq<Param>)
    ensures |es| == |ps|
    ensures forall i :: 0 <= i < |ps| ==> es[i] == (Encoded(ps[i].0), Encoded(ps[i].1))
  {
    seq(|ps|, i requires 0 <= i < |ps| => (Encoded(ps[i].0), Encoded(ps[i].1)))
  }

  lemma RenderedSplits(p: Param)
    ensures Pair(Rendered(p)) == (Encoded(p.0), Encoded(p.1))
    ensures AMPERSAND !in Rendered(p)
  {
    EncodedIsPlain(p.0);
    EncodedIsPlain(p.1);
    var r, k := Rendered(p), |Encoded(p.0)|;
    forall i | 0 <= i < k ensures r[i] != EQUALS {
      assert r[i] == Encoded(p.0)[i];
      assert Encoded(p.0)[i] in Encoded(p.0);
    }
    FindIs(r, EQUALS, k);
    assert r[..k] == Encoded(p.0) && r[k + 1..] == Encoded(p.1);
  }

  lemma RenderedNotEmpty(p: Param)
    ensures Rendered(p) != []
  {
  }

  /** The query splits into exactly the parameters it was made of, in order. */
  lemma {:induction false} QuerySplits(ps: seq<Param>)
    ensures Pairs(Query(ps)) == EncodedPairs(ps)
    decreases |ps|
  {
    hide Encoded, Pair, Rendered;
    if ps != [] {
      var q, r := Query(ps), Rendered(ps[0]);
      RenderedSplits(ps[0]);
      RenderedNotEmpty(ps[0]);
      FindIs(q, AMPERSAND, |r|);
      assert q[..|r|] == r;
      if |ps| > 1 {
        assert q[|r| + 1..] == Query(ps[1..]);
        QuerySplits(ps[1..]);
      }
    }
  }

  ghost predicate Has(ps: seq<Param>, key: Bytes) {
    exists i :: 0 <= i < |ps| && ps[i].0 == key
  }

  /** The value of the first parameter with this key. */
  ghost function FirstValue(ps: seq<Param>, key: Bytes): Bytes
    requires Has(ps, key)
  {
    if ps[0].0 == key then ps[0].1
    else
      assert Has(ps[1..], key) by {
        var i :| 0 <= i < |ps| && ps[i].0 == key;
        assert ps[1..][i - 1].0 == key;
      }
      FirstValue(ps[1..], key)
  }

  lemma {:induction false} EmplacedIsFirst(params: map<Bytes, Bytes>, ps: seq<Param>, key: Bytes)
    ensures var m := Emplaced(params, ps);
      && (key in m <==> key in params || Has(ps, key))
      && (key in params ==> m[key] == params[key])
      && (key !in params && Has(ps, key) ==> m[key] == FirstValue(ps, key))
    decreases |ps|
  {
    if ps != [] {
      EmplacedIsFirst(if ps[0].0 in params then params else params[ps[0].0 := ps[0].1], ps[1..], key);
      if i :| 0 <= i < |ps| && ps[i].0 == key {
        if i > 0 {
          assert ps[1..][i - 1].0 == key;
        }
      }
      if i :| 0 <= i < |ps[1..]| && ps[1..][i].0 == key {
        assert ps[i + 1].0 == key;
      }
    }
  }

  lemma EncodedInjective(s: Bytes, t: Bytes)
    requires Encoded(s) == Encoded(t)
    ensures s == t
  {
    DecodeEncode((a, b) => 0, s);
    DecodeEncode((a, b) => 0, t);
  }

  lemma {:induction false} EncodingKeepsFirst(ps: seq<Param>, key: Bytes)
    ensures Has(EncodedPairs(ps), Encoded(key)) <==> Has(ps, key)
    ensures Has(ps, key) ==> FirstValue(EncodedPairs(ps), Encoded(key)) == Encoded(FirstValue(ps, key))
    decreases |ps|
  {
    if i :| 0 <= i < |ps| && ps[i].0 == key {
      assert EncodedPairs(ps)[i].0 == Encoded(key);
    }
    if i :| 0 <= i < |ps| && EncodedPairs(ps)[i].0 == Encoded(key) {
      EncodedInjective(ps[i].0, key);
    }
    if ps != [] && Has(ps, key) {
      assert EncodedPairs(ps)[1..] == EncodedPairs(ps[1..]);
      if ps[0].0 == key {
        assert EncodedPairs(ps)[0].0 == Encoded(key);
      } else {
        if Encoded(ps[0].0) == Encoded(key) {
          EncodedInjective(ps[0].0, key);
        }
        EncodingKeepsFirst(ps[1..], key);
      }
    }
  }

  /** A path without a question mark, a question mark, and the query of a parameter list: the
      request splits back into the path and, decoded, into each key with its first value. */
  lemma RequestRoundTrip(odd: (Byte, Byte) -> Byte, path: Bytes, ps: seq<Param>)
    requires QUESTION !in path
    ensures var uri := path + [QUESTION] + Query(ps);
      var pos := Find(uri, QUESTION);
      pos < |uri| && uri[..pos] == path &&
      var m := Emplaced(map[], Pairs(uri[pos + 1..]));
      && (forall key :: Has(ps, key) ==> Encoded(key) in m && Decoded(odd, m[Encoded(key)]) == FirstValue(ps, key))
      && (forall k :: k in m ==> Has(ps, Decoded(odd, k)) && Encoded(Decoded(odd, k)) == k)
  {
    var uri := path + [QUESTION] + Query(ps);
    FindIs(uri, QUESTION, |path|);
    assert uri[..|path|] == path && uri[|path| + 1..] == Query(ps);
    QuerySplits(ps);
    var m := Emplaced(map[], EncodedPairs(ps));
    forall key | Has(ps, key)
      ensures Encoded(key) in m && Decoded(odd, m[Encoded(key)]) == FirstValue(ps, key)
    {
      EmplacedIsFirst(map[], EncodedPairs(ps), Encoded(key));
      EncodingKeepsFirst(ps, key);
      DecodeEncode(odd, FirstValue(ps, key));
    }
    forall k | k in m ensures Has(ps, Decoded(odd, k)) && Encoded(Decoded(odd, k)) == k {
      EmplacedIsFirst(map[], EncodedPairs(ps), k);
      var i :| 0 <= i < |ps| && EncodedPairs(ps)[i].0 == k;
      DecodeEncode(odd, ps[i].0);
      assert ps[i].0 == Decoded(odd, k);
    }
  }

  /** With distinct keys every parameter comes back with its own value. */
  lemma {:induction false} DistinctKeysAllReturn(ps: seq<Param>, i: nat)
    requires i < |ps| && forall j, k :: 0 <= j < k < |ps| ==> ps[j].0 != ps[k].0
    ensures Has(ps, ps[i].0) && FirstValue(ps, ps[i].0) == ps[i].1
    decreases |ps|
  {
    if i > 0 {
      assert ps[1..][i - 1] == ps[i];
      DistinctKeysAllReturn(ps[1..], i - 1);
    }
  }
}
