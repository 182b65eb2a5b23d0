/**
 * Percent-encoding as JavaScript's `encodeURIComponent` does it (section 2.1
 * of RFC 3986, over the UTF-8 bytes of each character), the decoding that
 * `decodeURIComponent` applies, and the origin of an http(s) URL.
 */
module Uri {
  import opened Wrappers
  import opened Strings

  /** Characters `encodeURIComponent` leaves as they are. */
  predicate Unreserved(c: char) {
    ('A' <= c <= 'Z') || ('a' <= c <= 'z') || ('0' <= c <= '9')
    || c == '-' || c == '_' || c == '.' || c == '!' || c == '~' || c == '*'
    || c == '\'' || c == '(' || c == ')'
  }

  predicate IsByte(b: int) {
    0 <= b < 256
  }

  /** The UTF-8 encoding of one Unicode scalar value: six bits per continuation byte, lowest bits last. */
  function Utf8(c: char): (bs: seq<int>)
    ensures 1 <= |bs| <= 4
    ensures forall i :: 0 <= i < |bs| ==> IsByte(bs[i])
  {
    var cp := c as int;
    var q1 := cp / 64;
    var q2 := q1 / 64;
    if cp < 0x80 then [cp]
    else if cp < 0x800 then [0xC0 + q1, 0x80 + cp % 64]
    else if cp < 0x10000 then [0xE0 + q2, 0x80 + q1 % 64, 0x80 + cp % 64]
    else [0xF0 + q2 / 64, 0x80 + q2 % 64, 0x80 + q1 % 64, 0x80 + cp % 64]
  }

  /** Upper-case hexadecimal digit, as the escapes of `encodeURIComponent` use. */
  function HexDigit(d: int): char
    requires 0 <= d < 16
  {
    if d < 10 then ('0' as int + d) as char else ('A' as int + d - 10) as char
  }

  /** The value of a hexadecimal digit of either case. */
  function HexValue(ch: char): Option<int> {
    if '0' <= ch <= '9' then Some(ch as int - '0' as int)
    else if 'A' <= ch <= 'F' then Some(ch as int - 'A' as int + 10)
    else if 'a' <= ch <= 'f' then Some(ch as int - 'a' as int + 10)
    else None
  }

  function PercentByte(b: int): (r: string)
    requires IsByte(b)
    ensures |r| == 3
  {
    ['%', HexDigit(b / 16), HexDigit(b % 16)]
  }

  function PercentBytes(bs: seq<int>): (r: string)
    requires forall i :: 0 <= i < |bs| ==> IsByte(bs[i])
    ensures |r| == 3 * |bs|
  {
    if |bs| == 0 then "" else PercentByte(bs[0]) + PercentBytes(bs[1..])
  }

  function EncodeChar(c: char): string {
    if Unreserved(c) then [c] else PercentBytes(Utf8(c))
  }

  /** `encodeURIComponent(s)`. */
  function EncodeURIComponent(s: string): string {
    if |s| == 0 then "" else EncodeChar(s[0]) + EncodeURIComponent(s[1..])
  }

  /** Reads one `%XX` escape at the start of `s`. */
  function ReadByte(s: string): Option<int> {
    if |s| >= 3 && s[0] == '%' && HexValue(s[1]).Some? && HexValue(s[2]).Some? then
      Some(HexValue(s[1]).value * 16 + HexValue(s[2]).value)
    else None
  }

  /** Reads `n` consecutive `%XX` escapes at the start of `s`. */
  function ReadBytes(s: string, n: nat): Option<seq<int>>
    decreases n
  {
    if n == 0 then Some([])
    else
      var b :- ReadByte(s);
      var rest :- ReadBytes(s[3..], n - 1);
      Some([b] + rest)
  }

  /** The length of a UTF-8 sequence given its first byte; None for a byte that cannot start one. */
  function SequenceLength(b0: int): Option<nat> {
    if 0 <= b0 < 0x80 then Some(1)
    else if 0xC0 <= b0 < 0xE0 then Some(2)
    else if 0xE0 <= b0 < 0xF0 then Some(3)
    else if 0xF0 <= b0 < 0xF8 then Some(4)
    else None
  }

  predicate Continuation(b: int) {
    0x80 <= b < 0xC0
  }

  predicate IsScalar(cp: int) {
    (0 <= cp < 0xD800) || (0xE000 <= cp < 0x110000)
  }

  /** Decodes one UTF-8 sequence, rejecting overlong forms, surrogates and out-of-range values. */
  function Utf8Decode(bs: seq<int>): Option<char> {
    if |bs| == 1 && 0 <= bs[0] < 0x80 then Some(bs[0] as char)
    else if |bs| == 2 && 0xC0 <= bs[0] < 0xE0 && Continuation(bs[1]) then
      var cp := (bs[0] - 0xC0) * 64 + (bs[1] - 0x80);
      if 0x80 <= cp then Some(cp as char) else None
    else if |bs| == 3 && 0xE0 <= bs[0] < 0xF0 && Continuation(bs[1]) && Continuation(bs[2]) then
      var cp := (bs[0] - 0xE0) * 4096 + (bs[1] - 0x80) * 64 + (bs[2] - 0x80);
      if 0x800 <= cp && IsScalar(cp) then Some(cp as char) else None
    else if |bs| == 4 && 0xF0 <= bs[0] < 0xF8 && Continuation(bs[1]) && Continuation(bs[2]) && Continuation(bs[3]) then
      var cp := (bs[0] - 0xF0) * 262144 + (bs[1] - 0x80) * 4096 + (bs[2] - 0x80) * 64 + (bs[3] - 0x80);
      if 0x10000 <= cp < 0x110000 then Some(cp as char) else None
    else None
  }

  /** `decodeURIComponent(s)`; None where it throws a URIError. */
  function DecodeURIComponent(s: string): Option<string>
    decreases |s|
  {
    if |s| == 0 then Some("")
    else if s[0] != '%' then
      var rest :- DecodeURIComponent(s[1..]);
      Some([s[0]] + rest)
    else
      var b0 :- ReadByte(s);
      var n :- SequenceLength(b0);
      var bs :- ReadBytes(s, n);
      var c :- Utf8Decode(bs);
      var rest :- DecodeURIComponent(s[3 * n..]);
      Some([c] + rest)
  }

  lemma HexRoundTrip(d: int)
    requires 0 <= d < 16
    ensures HexValue(HexDigit(d)) == Some(d)
  {
  }

  lemma ReadPercentByte(b: int, rest: string, s: string)
    requires IsByte(b) && s == PercentByte(b) + rest
    ensures s[0] == '%' && ReadByte(s) == Some(b)
  {
    HexRoundTrip(b / 16);
    HexRoundTrip(b % 16);
    assert s[0] == '%' && s[1] == HexDigit(b / 16) && s[2] == HexDigit(b % 16);
  }

  lemma PercentBytesCons(bs: seq<int>, rest: string)
    requires 1 <= |bs| && forall i :: 0 <= i < |bs| ==> IsByte(bs[i])
    ensures PercentBytes(bs) + rest == PercentByte(bs[0]) + (PercentBytes(bs[1..]) + rest)
  {
    PercentBytesUnfold(bs);
    ConcatAssoc(PercentByte(bs[0]), PercentBytes(bs[1..]), rest);
  }

  lemma ConcatAssoc(a: string, b: string, c: string)
    ensures (a + b) + c == a + (b + c)
  {
  }

  lemma PercentBytesUnfold(bs: seq<int>)
    requires 1 <= |bs| && forall i :: 0 <= i < |bs| ==> IsByte(bs[i])
    ensures PercentBytes(bs) == PercentByte(bs[0]) + PercentBytes(bs[1..])
  {
  }

  lemma {:induction false} ReadPercentBytes(bs: seq<int>, rest: string)
    requires forall i :: 0 <= i < |bs| ==> IsByte(bs[i])
    ensures ReadBytes(PercentBytes(bs) + rest, |bs|) == Some(bs)
    decreases |bs|
  {
    if |bs| > 0 {
      var s := PercentBytes(bs) + rest;
      var b := bs[0];
      PercentBytesCons(bs, rest);
      ReadPercentByte(b, PercentBytes(bs[1..]) + rest, s);
      assert s[3..] == PercentBytes(bs[1..]) + rest;
      ReadPercentBytes(bs[1..], rest);
      assert [b] + bs[1..] == bs;
    }
  }

  lemma Utf8RoundTrip(c: char)
    ensures SequenceLength(Utf8(c)[0]) == Some(|Utf8(c)|)
    ensures Utf8Decode(Utf8(c)) == Some(c)
  {
    var cp := c as int;
    var q1 := cp / 64;
    var q2 := q1 / 64;
    assert cp == q1 * 64 + cp % 64;
    assert q1 == q2 * 64 + q1 % 64;
    assert q2 == (q2 / 64) * 64 + q2 % 64;
    if cp < 0x80 {
    } else if cp < 0x800 {
      Decode2(q1, cp % 64);
    } else if cp < 0x10000 {
      Decode3(q2, q1 % 64, cp % 64);
    } else {
      Decode4(q2 / 64, q2 % 64, q1 % 64, cp % 64);
    }
  }

  lemma Decode2(a: int, b: int)
    requires 2 <= a < 32 && 0 <= b < 64
    ensures Utf8Decode([0xC0 + a, 0x80 + b]) == Some((a * 64 + b) as char)
  {
  }

  lemma Decode3(a: int, b: int, d: int)
    requires 0 <= a < 16 && 0 <= b < 64 && 0 <= d < 64
    requires var cp := a * 4096 + b * 64 + d; 0x800 <= cp && IsScalar(cp)
    ensures Utf8Decode([0xE0 + a, 0x80 + b, 0x80 + d]) == Some((a * 4096 + b * 64 + d) as char)
  {
  }

  lemma Decode4(a: int, b: int, d: int, e: int)
    requires 0 <= a < 8 && 0 <= b < 64 && 0 <= d < 64 && 0 <= e < 64
    requires var cp := a * 262144 + b * 4096 + d * 64 + e; 0x10000 <= cp < 0x110000
    ensures Utf8Decode([0xF0 + a, 0x80 + b, 0x80 + d, 0x80 + e]) == Some((a * 262144 + b * 4096 + d * 64 + e) as char)
  {
  }

  /** One decoding step over `n` escapes at the start of `s` that read as the sequence of `c`. */
  lemma DecodeStep(s: string, bs: seq<int>, c: char)
    requires |bs| >= 1 && |s| >= 3 * |bs| && s[0] == '%'
    requires ReadByte(s) == Some(bs[0]) && SequenceLength(bs[0]) == Some(|bs|)
    requires ReadBytes(s, |bs|) == Some(bs) && Utf8Decode(bs) == Some(c)
    ensures DecodeURIComponent(s) ==
            match DecodeURIComponent(s[3 * |bs|..])
            case None => None
            case Some(r) => Some([c] + r)
  {
  }

  /** Escapes followed by anything read back as the escaped bytes, and the rest follows them. */
  lemma PercentPrefix(bs: seq<int>, rest: string)
    requires 1 <= |bs| && forall i :: 0 <= i < |bs| ==> IsByte(bs[i])
    ensures var s := PercentBytes(bs) + rest;
            && |s| >= 3 * |bs| && s[0] == '%' && s[3 * |bs|..] == rest
            && ReadByte(s) == Some(bs[0]) && ReadBytes(s, |bs|) == Some(bs)
  {
    var s := PercentBytes(bs) + rest;
    ReadPercentBytes(bs, rest);
    PercentBytesCons(bs, rest);
    ReadPercentByte(bs[0], PercentBytes(bs[1..]) + rest, s);
    assert s[3 * |bs|..] == rest;
  }

  lemma {:induction false} DecodeEncodedChar(c: char, rest: string)
    requires !Unreserved(c)
    ensures DecodeURIComponent(EncodeChar(c) + rest) ==
            match DecodeURIComponent(rest)
            case None => None
            case Some(r) => Some([c] + r)
  {
    var bs := Utf8(c);
    assert EncodeChar(c) == PercentBytes(bs);
    Utf8RoundTrip(c);
    PercentPrefix(bs, rest);
    DecodeStep(PercentBytes(bs) + rest, bs, c);
  }

  /** Decoding what `encodeURIComponent` produced gives the original string. */
  lemma {:induction false} EncodeDecodeRoundTrip(s: string)
    ensures DecodeURIComponent(EncodeURIComponent(s)) == Some(s)
    decreases |s|
  {
    if |s| > 0 {
      EncodeDecodeRoundTrip(s[1..]);
      if Unreserved(s[0]) {
        var e := EncodeURIComponent(s);
        assert e == [s[0]] + EncodeURIComponent(s[1..]);
        assert e[0] == s[0] && e[0] != '%';
        assert e[1..] == EncodeURIComponent(s[1..]);
        assert [s[0]] + s[1..] == s;
      } else {
        DecodeEncodedChar(s[0], EncodeURIComponent(s[1..]));
        assert EncodeURIComponent(s) == EncodeChar(s[0]) + EncodeURIComponent(s[1..]);
        assert [s[0]] + s[1..] == s;
      }
    }
  }

  /** Every character of an encoding is unreserved or the "%" of an escape (hex digits are unreserved). */
  predicate EncodedChar(ch: char) {
    Unreserved(ch) || ch == '%'
  }

  lemma {:induction false} PercentBytesChars(bs: seq<int>)
    requires forall i :: 0 <= i < |bs| ==> IsByte(bs[i])
    ensures AllEncoded(PercentBytes(bs))
  {
    if |bs| > 0 {
      PercentBytesChars(bs[1..]);
      var h := PercentByte(bs[0]);
      assert AllEncoded(h) by {
        assert h[0] == '%';
      }
      AllEncodedConcat(h, PercentBytes(bs[1..]));
    }
  }

  predicate AllEncoded(s: string) {
    forall i :: 0 <= i < |s| ==> EncodedChar(s[i])
  }

  lemma AllEncodedConcat(a: string, b: string)
    requires AllEncoded(a) && AllEncoded(b)
    ensures AllEncoded(a + b)
  {
    forall i | 0 <= i < |a + b| ensures EncodedChar((a + b)[i]) {
      if i >= |a| {
        assert (a + b)[i] == b[i - |a|];
      }
    }
  }

  /**
   * The encoding contains only unreserved characters and "%" escapes; in
   * particular no "/" survives, so the result is a single path segment.
   */
  lemma {:induction false} EncodeChars(s: string)
    ensures AllEncoded(EncodeURIComponent(s))
    ensures '/' !in EncodeURIComponent(s)
    decreases |s|
  {
    if |s| > 0 {
      EncodeChars(s[1..]);
      if !Unreserved(s[0]) {
        PercentBytesChars(Utf8(s[0]));
      }
      assert AllEncoded(EncodeChar(s[0]));
      AllEncodedConcat(EncodeChar(s[0]), EncodeURIComponent(s[1..]));
    }
    assert !EncodedChar('/');
  }

  /** Strings made only of unreserved characters are left unchanged. */
  lemma {:induction false} EncodeUnreserved(s: string)
    requires forall i :: 0 <= i < |s| ==> Unreserved(s[i])
    ensures EncodeURIComponent(s) == s
    decreases |s|
  {
    if |s| > 0 {
      EncodeUnreserved(s[1..]);
    }
  }

  /** Encoding works character by character, so it distributes over concatenation. */
  lemma {:induction false} EncodeConcat(a: string, b: string)
    ensures EncodeURIComponent(a + b) == EncodeURIComponent(a) + EncodeURIComponent(b)
    decreases |a|
  {
    if |a| > 0 {
      assert (a + b)[1..] == a[1..] + b;
      EncodeConcat(a[1..], b);
    } else {
      assert a + b == b;
    }
  }

  lemma EncodeSlashChar()
    ensures EncodeURIComponent("/") == "%2F"
  {
    assert Utf8('/') == [0x2F];
    assert PercentByte(0x2F) == "%2F";
    assert EncodeChar('/') == "%2F";
    assert "/"[1..] == "";
  }

  /** "/" becomes "%2F", so "owner/repo" becomes "owner%2Frepo". */
  lemma EncodeSlash(owner: string, name: string)
    requires forall i :: 0 <= i < |owner| ==> Unreserved(owner[i])
    requires forall i :: 0 <= i < |name| ==> Unreserved(name[i])
    ensures EncodeURIComponent("/") == "%2F"
    ensures EncodeURIComponent(owner + "/" + name) == owner + "%2F" + name
  {
    EncodeSlashChar();
    EncodeUnreserved(owner);
    EncodeUnreserved(name);
    EncodeConcat(owner + "/", name);
    EncodeConcat(owner, "/");
  }

  /** Index of the first character of `s` that ends a URL authority ("/", "?" or "#"), or |s|. */
  function AuthorityEnd(s: string): (k: nat)
    ensures k <= |s|
    ensures forall i :: 0 <= i < k ==> s[i] != '/' && s[i] != '?' && s[i] != '#'
    ensures k < |s| ==> s[k] == '/' || s[k] == '?' || s[k] == '#'
  {
    if |s| == 0 || s[0] == '/' || s[0] == '?' || s[0] == '#' then 0
    else 1 + AuthorityEnd(s[1..])
  }

  /** The part of an authority after its last "@" (the host and port without user info). */
  function HostPort(authority: string): (h: string)
    ensures '@' !in h
    ensures EndsWith(authority, h)
  {
    if |authority| == 0 then ""
    else if authority[|authority| - 1] == '@' then ""
    else
      var h := HostPort(authority[..|authority| - 1]);
      assert authority[..|authority| - 1][|authority| - 1 - |h|..] == authority[|authority| - 1 - |h|..|authority| - 1];
      h + [authority[|authority| - 1]]
  }

  /**
   * `new URL(url).origin` for an http or https URL: scheme, "://", and host
   * with port. None where the model does not compute an origin: an empty
   * host or any other scheme (an scp-style `git@host:path` makes `new URL` throw).
   */
  function Origin(url: string): (r: Option<string>)
    ensures r.Some? ==> exists scheme, host :: (scheme == "https://" || scheme == "http://")
                          && StartsWith(url, scheme) && r.value == scheme + host
                          && host != "" && '/' !in host && '@' !in host
  {
    var scheme := if StartsWith(url, "https://") then "https://"
                  else if StartsWith(url, "http://") then "http://" else "";
    if scheme == "" then None
    else
      var rest := url[|scheme|..];
      var host := HostPort(rest[..AuthorityEnd(rest)]);
      if host == "" then None
      else
        assert EndsWith(rest[..AuthorityEnd(rest)], host);
        assert forall i :: 0 <= i < |host| ==> host[i] == rest[AuthorityEnd(rest) - |host| + i];
        assert '/' !in host;
        Some(scheme + host)
  }

  /** No "/", "?" or "#": text that stays inside a URL authority. */
  predicate AuthorityText(s: string) {
    forall i :: 0 <= i < |s| ==> s[i] != '/' && s[i] != '?' && s[i] != '#'
  }

  /** The authority ends at the first "/", "?" or "#", or at the end of the text. */
  lemma {:induction false} AuthorityEndAt(s: string, k: nat)
    requires k <= |s| && AuthorityText(s[..k])
    requires k < |s| ==> s[k] == '/' || s[k] == '?' || s[k] == '#'
    ensures AuthorityEnd(s) == k
    decreases k
  {
    if k > 0 {
      assert s[1..][..k - 1] == s[..k][1..];
      AuthorityEndAt(s[1..], k - 1);
    }
  }

  /** An authority without user info is its own host and port. */
  lemma {:induction false} HostPortNoAt(authority: string)
    requires '@' !in authority
    ensures HostPort(authority) == authority
    decreases |authority|
  {
    if |authority| > 0 {
      var init := authority[..|authority| - 1];
      assert '@' !in init by {
        assert forall i :: 0 <= i < |init| ==> init[i] == authority[i];
      }
      HostPortNoAt(init);
      assert init + [authority[|authority| - 1]] == authority;
    }
  }

  /** User info is dropped through the last "@". */
  lemma {:induction false} HostPortAfterAt(userinfo: string, host: string)
    requires '@' !in host
    ensures HostPort(userinfo + "@" + host) == host
    decreases |host|
  {
    var a := userinfo + "@" + host;
    if |host| == 0 {
      assert a[|a| - 1] == '@';
    } else {
      var init := host[..|host| - 1];
      assert '@' !in init by {
        assert forall i :: 0 <= i < |init| ==> init[i] == host[i];
      }
      assert a[..|a| - 1] == userinfo + "@" + init;
      assert a[|a| - 1] == host[|host| - 1];
      HostPortAfterAt(userinfo, init);
      assert init + [host[|host| - 1]] == host;
    }
  }

  /**
   * The origin of an http(s) URL is its scheme and the host and port of its
   * authority (the text up to the first "/", "?" or "#"); None when that is empty.
   */
  lemma OriginOf(scheme: string, authority: string, rest: string)
    requires scheme == "https://" || scheme == "http://"
    requires AuthorityText(authority)
    requires rest == "" || rest[0] == '/' || rest[0] == '?' || rest[0] == '#'
    ensures Origin(scheme + authority + rest) ==
              if HostPort(authority) == "" then None else Some(scheme + HostPort(authority))
  {
    var tail := authority + rest;
    SchemeChosen(scheme, tail);
    assert (scheme + tail)[|scheme|..] == tail;
    assert tail[..|authority|] == authority;
    AuthorityEndAt(tail, |authority|);
    assert scheme + authority + rest == scheme + tail;
  }

  /** The scheme `Origin` picks is the one the URL starts with. */
  lemma SchemeChosen(scheme: string, tail: string)
    requires scheme == "https://" || scheme == "http://"
    ensures (if StartsWith(scheme + tail, "https://") then "https://"
             else if StartsWith(scheme + tail, "http://") then "http://" else "") == scheme
  {
    var url := scheme + tail;
    assert url[..|scheme|] == scheme;
    if scheme == "http://" {
      assert url[4] == ':';
    }
  }

  /** "scheme://user@host/path" has the origin "scheme://host". */
  lemma OriginWithUserInfo(scheme: string, userinfo: string, host: string, rest: string)
    requires scheme == "https://" || scheme == "http://"
    requires AuthorityText(userinfo)
    requires host != "" && AuthorityText(host) && '@' !in host
    requires rest == "" || rest[0] == '/' || rest[0] == '?' || rest[0] == '#'
    ensures Origin(scheme + userinfo + "@" + host + rest) == Some(scheme + host)
  {
    var authority := userinfo + "@" + host;
    assert AuthorityText(authority) by {
      forall i | 0 <= i < |authority|
        ensures authority[i] != '/' && authority[i] != '?' && authority[i] != '#'
      {
        if i > |userinfo| {
          assert authority[i] == host[i - |userinfo| - 1];
        }
      }
    }
    assert scheme + userinfo + "@" + host + rest == scheme + authority + rest;
    OriginOf(scheme, authority, rest);
    HostPortAfterAt(userinfo, host);
  }

  /** "scheme://host/path" with no user info has the origin "scheme://host". */
  lemma OriginWithoutUserInfo(scheme: string, host: string, rest: string)
    requires scheme == "https://" || scheme == "http://"
    requires host != "" && AuthorityText(host) && '@' !in host
    requires rest == "" || rest[0] == '/' || rest[0] == '?' || rest[0] == '#'
    ensures Origin(scheme + host + rest) == Some(scheme + host)
  {
    OriginOf(scheme, host, rest);
    HostPortNoAt(host);
  }

  /** Decodes every segment; None when one of them does not decode. */
  function DecodeSegments(segs: seq<string>): (r: Option<seq<string>>)
    ensures r.Some? ==> |r.value| == |segs|
  {
    if |segs| == 0 then Some([])
    else
      var first :- DecodeURIComponent(segs[0]);
      var rest :- DecodeSegments(segs[1..]);
      Some([first] + rest)
  }

  /** Segments encoded one by one decode back one by one. */
  lemma {:induction false} DecodeEncodedSegments(parts: seq<string>)
    ensures DecodeSegments(seq(|parts|, i requires 0 <= i < |parts| => EncodeURIComponent(parts[i]))) == Some(parts)
    decreases |parts|
  {
    var enc := seq(|parts|, i requires 0 <= i < |parts| => EncodeURIComponent(parts[i]));
    if |parts| > 0 {
      EncodeDecodeRoundTrip(parts[0]);
      assert enc[1..] == seq(|parts[1..]|, i requires 0 <= i < |parts[1..]| => EncodeURIComponent(parts[1..][i]));
      DecodeEncodedSegments(parts[1..]);
      assert [parts[0]] + parts[1..] == parts;
    }
  }
}
