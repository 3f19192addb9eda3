/**
 * The pure pieces of the API client: `buildQueryString`, which turns the entries of a parameter
 * object into `key=value` pairs joined by '&', the `adminUpdatePasswords` endpoint path, and
 * `generateStrongPassword`, whose random picks and random shuffle are inputs here.
 *
 * `encodeURIComponent` is percent-encoding in the sense of section 2.1 of RFC 3986: a character
 * outside the set JavaScript leaves alone becomes its UTF-8 bytes, each written "%XX" with
 * upper-case hexadecimal digits.  Its inverse, `decodeURIComponent`, is modelled beside it so
 * that the query string can be read back.
 */
module Api {
  import opened Wrappers
  import opened JsText
  import opened JsValue

  // ---------------------------------------------------------------------------------------------
  // encodeURIComponent and decodeURIComponent

  /** The characters `encodeURIComponent` leaves as they are: letters, digits and - _ . ! ~ * ' ( ) */
  predicate Unescaped(c: char) {
    ('A' <= c <= 'Z') || ('a' <= c <= 'z') || ('0' <= c <= '9') ||
    c == '-' || c == '_' || c == '.' || c == '!' || c == '~' || c == '*' || c == '\'' || c == '(' || c == ')'
  }

  /** An upper-case hexadecimal digit */
  function HexDigit(d: int): (c: char)
    requires 0 <= d < 16
    ensures Unescaped(c)
  {
    if d < 10 then (48 + d) as char else (55 + d) as char
  }

  /** The value of a hexadecimal digit of either case */
  function HexValue(c: char): (r: Option<int>)
    ensures r.Some? ==> 0 <= r.value < 16
  {
    if '0' <= c <= '9' then Some(c as int - 48)
    else if 'A' <= c <= 'F' then Some(c as int - 55)
    else if 'a' <= c <= 'f' then Some(c as int - 87)
    else None
  }

  lemma HexRoundTrip(d: int)
    requires 0 <= d < 16
    ensures HexValue(HexDigit(d)) == Some(d)
  {
  }

  /** One byte as "%XX" */
  function PercentByte(b: int): (r: string)
    requires 0 <= b < 256
    ensures |r| == 3 && r[0] == '%' && Unescaped(r[1]) && Unescaped(r[2])
  {
    ['%', HexDigit(b / 16), HexDigit(b % 16)]
  }

  predicate IsByte(b: int) {
    0 <= b < 256
  }

  predicate IsContinuation(b: int) {
    0x80 <= b < 0xC0
  }

  /** The UTF-8 encoding of a Unicode scalar value */
  function Utf8(c: char): (r: seq<int>)
    ensures 1 <= |r| <= 4 && forall k :: 0 <= k < |r| ==> IsByte(r[k])
  {
    var cp := c as int;
    if cp < 0x80 then [cp]
    else if cp < 0x800 then [0xC0 + cp / 64, 0x80 + cp % 64]
    else if cp < 0x10000 then [0xE0 + cp / 4096, 0x80 + (cp / 64) % 64, 0x80 + cp % 64]
    else [0xF0 + cp / 262144, 0x80 + (cp / 4096) % 64, 0x80 + (cp / 64) % 64, 0x80 + cp % 64]
  }

  /** Bytes written one after another as "%XX" */
  function PercentBytes(bs: seq<int>): (r: string)
    requires forall k :: 0 <= k < |bs| ==> IsByte(bs[k])
    ensures |r| == 3 * |bs|
  {
    if bs == [] then []
    else
      assert IsByte(bs[0]);
      PercentByte(bs[0]) + PercentBytes(bs[1..])
  }

  /** `encodeURIComponent` of one character */
  function EncodeChar(c: char): (r: string)
    ensures |r| >= 1
    ensures Unescaped(c) ==> r == [c]
    ensures !Unescaped(c) ==> r[0] == '%'
  {
    if Unescaped(c) then [c] else PercentBytes(Utf8(c))
  }

  /** `encodeURIComponent(s)` */
  function EncodeURIComponent(s: string): (r: string)
    ensures |r| >= |s|
  {
    if s == [] then [] else EncodeChar(s[0]) + EncodeURIComponent(s[1..])
  }

  /** The length of the UTF-8 sequence a lead byte starts; 0 for a byte that cannot lead */
  function SequenceLength(b: int): (n: nat)
    ensures n <= 4
  {
    if b < 0x80 then 1
    else if 0xC0 <= b < 0xE0 then 2
    else if 0xE0 <= b < 0xF0 then 3
    else if 0xF0 <= b < 0xF8 then 4
    else 0
  }

  /** The byte "%XX" at the start of `s` writes */
  function ReadByte(s: string): (r: Option<int>)
    ensures r.Some? ==> IsByte(r.value) && |s| >= 3
  {
    if |s| < 3 || s[0] != '%' then None
    else match (HexValue(s[1]), HexValue(s[2]))
      case (Some(hi), Some(lo)) => Some(16 * hi + lo)
      case _ => None
  }

  /** `n` bytes written as "%XX" at the start of `s` */
  function ReadBytes(s: string, n: nat): (r: Option<seq<int>>)
    ensures r.Some? ==> |r.value| == n && |s| >= 3 * n && forall k :: 0 <= k < n ==> IsByte(r.value[k])
  {
    if n == 0 then Some([])
    else match ReadByte(s)
      case None => None
      case Some(b) =>
        match ReadBytes(s[3..], n - 1)
        case None => None
        case Some(bs) => Some([b] + bs)
  }

  predicate IsScalar(cp: int) {
    (0 <= cp < 0xD800) || (0xE000 <= cp < 0x110000)
  }

  /** The character a UTF-8 sequence of one to four bytes encodes; `None` for an overlong, surrogate or out-of-range one */
  function DecodeUtf8(bs: seq<int>): (r: Option<char>)
    requires 1 <= |bs| <= 4
  {
    var cp :=
      if |bs| == 1 then bs[0]
      else if |bs| == 2 then (bs[0] - 0xC0) * 64 + (bs[1] - 0x80)
      else if |bs| == 3 then ((bs[0] - 0xE0) * 64 + (bs[1] - 0x80)) * 64 + (bs[2] - 0x80)
      else (((bs[0] - 0xF0) * 64 + (bs[1] - 0x80)) * 64 + (bs[2] - 0x80)) * 64 + (bs[3] - 0x80);
    var least := if |bs| == 1 then 0 else if |bs| == 2 then 0x80 else if |bs| == 3 then 0x800 else 0x10000;
    if (forall k :: 1 <= k < |bs| ==> IsContinuation(bs[k])) && SequenceLength(bs[0]) == |bs| &&
       least <= cp && IsScalar(cp)
    then Some(cp as char)
    else None
  }

  /** `decodeURIComponent(s)`; `None` where JavaScript throws a `URIError` */
  function DecodeURIComponent(s: string): (r: Option<string>)
    decreases |s|
  {
    if s == [] then Some([])
    else if s[0] != '%' then
      match DecodeURIComponent(s[1..])
      case None => None
      case Some(rest) => Some([s[0]] + rest)
    else match ReadByte(s)
      case None => None
      case Some(lead) =>
        var n := SequenceLength(lead);
        if n == 0 then None
        else match ReadBytes(s, n)
          case None => None
          case Some(bs) =>
            match DecodeUtf8(bs)
            case None => None
            case Some(c) =>
              match DecodeURIComponent(s[3 * n..])
              case None => None
              case Some(rest) => Some([c] + rest)
  }

  lemma ReadPercentByte(b: int, rest: string)
    requires IsByte(b)
    ensures ReadByte(PercentByte(b) + rest) == Some(b)
  {
    var s := PercentByte(b) + rest;
    HexRoundTrip(b / 16);
    HexRoundTrip(b % 16);
    assert s[1] == HexDigit(b / 16) && s[2] == HexDigit(b % 16);
  }

  lemma {:induction false} ReadPercentBytes(bs: seq<int>, rest: string)
    requires forall k :: 0 <= k < |bs| ==> IsByte(bs[k])
    ensures ReadBytes(PercentBytes(bs) + rest, |bs|) == Some(bs)
  {
    if bs != [] {
      var b := bs[0];
      var tail := bs[1..];
      var t := PercentBytes(tail) + rest;
      assert IsByte(b);
      assert PercentBytes(bs) + rest == PercentByte(b) + t;
      ReadPercentByte(b, t);
      assert (PercentByte(b) + t)[3..] == t;
      ReadPercentBytes(tail, rest);
      assert bs == [b] + tail;
    }
  }

  /** Decoding the UTF-8 encoding of a character gives the character back. */
  lemma Utf8RoundTrip(c: char)
    ensures SequenceLength(Utf8(c)[0]) == |Utf8(c)|
    ensures DecodeUtf8(Utf8(c)) == Some(c)
  {
    var cp := c as int;
    assert IsScalar(cp);
    if cp >= 0x10000 {
      assert cp / 262144 < 8;
      assert (cp / 262144) * 64 + (cp / 4096) % 64 == cp / 4096;
      assert (cp / 4096) * 64 + (cp / 64) % 64 == cp / 64;
    } else if cp >= 0x800 {
      assert (cp / 4096) * 64 + (cp / 64) % 64 == cp / 64;
    }
  }

  /** A character escaped by `encodeURIComponent` is decoded back first. */
  lemma DecodeEncodedChar(c: char, rest: string)
    requires !Unescaped(c)
    ensures DecodeURIComponent(EncodeChar(c) + rest) ==
              match DecodeURIComponent(rest) case None => None case Some(r) => Some([c] + r)
  {
    var bs := Utf8(c);
    var s := EncodeChar(c) + rest;
    assert PercentBytes(bs) + rest == PercentByte(bs[0]) + (PercentBytes(bs[1..]) + rest);
    ReadPercentByte(bs[0], PercentBytes(bs[1..]) + rest);
    ReadPercentBytes(bs, rest);
    Utf8RoundTrip(c);
    assert s[3 * |bs|..] == rest;
  }

  /** `decodeURIComponent` undoes `encodeURIComponent`. */
  lemma {:induction false} DecodeEncode(s: string)
    ensures DecodeURIComponent(EncodeURIComponent(s)) == Some(s)
  {
    if s != [] {
      var rest := EncodeURIComponent(s[1..]);
      DecodeEncode(s[1..]);
      if Unescaped(s[0]) {
        assert s[0] != '%';
        assert ([s[0]] + rest)[1..] == rest;
      } else {
        DecodeEncodedChar(s[0], rest);
      }
      assert s == [s[0]] + s[1..];
    }
  }

  /** Nothing `encodeURIComponent` writes is a '&' or a '=', so the separators of a query stay unambiguous. */
  lemma {:induction false} EncodedHasNoSeparators(s: string)
    ensures '&' !in EncodeURIComponent(s) && '=' !in EncodeURIComponent(s)
  {
    if s != [] {
      EncodedHasNoSeparators(s[1..]);
      if !Unescaped(s[0]) {
        PercentBytesNoSeparators(Utf8(s[0]));
      }
    }
  }

  lemma {:induction false} PercentBytesNoSeparators(bs: seq<int>)
    requires forall k :: 0 <= k < |bs| ==> IsByte(bs[k])
    ensures '&' !in PercentBytes(bs) && '=' !in PercentBytes(bs)
  {
    if bs != [] {
      PercentBytesNoSeparators(bs[1..]);
    }
  }

  /** A text of letters, digits and - _ . ! ~ * ' ( ) is its own encoding. */
  lemma {:induction false} EncodeUnescaped(s: string)
    requires forall k :: 0 <= k < |s| ==> Unescaped(s[k])
    ensures EncodeURIComponent(s) == s
  {
    if s != [] {
      EncodeUnescaped(s[1..]);
      assert s == [s[0]] + s[1..];
    }
  }

  // ---------------------------------------------------------------------------------------------
  // buildQueryString

  /** The entries `buildQueryString` keeps: those whose value is neither `undefined` nor `null` */
  predicate Kept(v: Json) {
    !v.JUndefined? && !v.JNull?
  }

  /** `.filter(([_, value]) => value !== undefined && value !== null)` */
  function KeptEntries(params: seq<(string, Json)>): (r: seq<(string, Json)>)
    ensures |r| <= |params|
    ensures forall k :: 0 <= k < |r| ==> Kept(r[k].1)
    ensures forall p :: p in r <==> p in params && Kept(p.1)
  {
    if params == [] then []
    else (if Kept(params[0].1) then [params[0]] else []) + KeptEntries(params[1..])
  }

  /** Filtering keeps the entry order: the entries of two objects side by side are filtered side by side. */
  lemma {:induction false} KeptEntriesAppend(a: seq<(string, Json)>, b: seq<(string, Json)>)
    ensures KeptEntries(a + b) == KeptEntries(a) + KeptEntries(b)
  {
    if a != [] {
      assert (a + b)[0] == a[0] && (a + b)[1..] == a[1..] + b;
      KeptEntriesAppend(a[1..], b);
    } else {
      assert a + b == b;
    }
  }

  /** `${encodeURIComponent(key)}=${encodeURIComponent(value)}` */
  function EncodePair(entry: (string, Json)): string {
    EncodeURIComponent(entry.0) + "=" + EncodeURIComponent(ToText(entry.1))
  }

  function EncodePairs(entries: seq<(string, Json)>): (r: seq<string>)
    ensures |r| == |entries|
    ensures forall k :: 0 <= k < |r| ==> r[k] == EncodePair(entries[k])
  {
    if entries == [] then [] else [EncodePair(entries[0])] + EncodePairs(entries[1..])
  }

  /** `parts.join(sep)` */
  function Join(parts: seq<string>, sep: char): string {
    if parts == [] then ""
    else if |parts| == 1 then parts[0]
    else parts[0] + [sep] + Join(parts[1..], sep)
  }

  /** `buildQueryString(params)` for the entries of `params` in `Object.entries` order */
  function BuildQueryString(params: seq<(string, Json)>): (r: string)
    ensures r == "" <==> KeptEntries(params) == []
  {
    var parts := EncodePairs(KeptEntries(params));
    assert parts != [] ==> '=' in parts[0];
    JoinNonEmpty(parts, '&');
    Join(parts, '&')
  }

  lemma JoinNonEmpty(parts: seq<string>, sep: char)
    requires parts != [] ==> parts[0] != ""
    ensures Join(parts, sep) == "" <==> parts == []
  {
    if |parts| > 1 {
      assert Join(parts, sep)[0] == parts[0][0];
    }
  }

  /** `s.split(sep)` */
  function Split(s: string, sep: char): (r: seq<string>)
    ensures |r| >= 1
  {
    if s == [] then [""]
    else if s[0] == sep then [""] + Split(s[1..], sep)
    else
      var rest := Split(s[1..], sep);
      [[s[0]] + rest[0]] + rest[1..]
  }

  lemma {:induction false} SplitNoSep(a: string, sep: char)
    requires sep !in a
    ensures Split(a, sep) == [a]
  {
    if a != [] {
      SplitNoSep(a[1..], sep);
      assert a == [a[0]] + a[1..];
    }
  }

  lemma {:induction false} SplitAtSep(a: string, b: string, sep: char)
    requires sep !in a
    ensures Split(a + [sep] + b, sep) == [a] + Split(b, sep)
  {
    if a == [] {
      assert a + [sep] + b == [sep] + b;
      assert ([sep] + b)[1..] == b;
    } else {
      var s := a + [sep] + b;
      assert s[0] == a[0] && s[1..] == a[1..] + [sep] + b;
      SplitAtSep(a[1..], b, sep);
      assert a == [a[0]] + a[1..];
    }
  }

  /** Splitting a joined list whose parts hold no separator gives the parts back. */
  lemma {:induction false} SplitJoin(parts: seq<string>, sep: char)
    requires parts != [] && forall k :: 0 <= k < |parts| ==> sep !in parts[k]
    ensures Split(Join(parts, sep), sep) == parts
  {
    if |parts| == 1 {
      SplitNoSep(parts[0], sep);
    } else {
      SplitJoin(parts[1..], sep);
      SplitAtSep(parts[0], Join(parts[1..], sep), sep);
      assert parts == [parts[0]] + parts[1..];
    }
  }

  /** A `key=value` piece read back: the text before the first '=' and the text after it, both decoded */
  function ParsePair(piece: string): (r: Option<(string, string)>) {
    var i := FirstIndex(piece, '=');
    var key := DecodeURIComponent(piece[..i]);
    var value := DecodeURIComponent(if i < |piece| then piece[i + 1..] else "");
    if key.Some? && value.Some? then Some((key.value, value.value)) else None
  }

  function FirstIndex(s: string, c: char): (i: nat)
    ensures i <= |s| && c !in s[..i] && (i < |s| ==> s[i] == c)
  {
    if s == [] || s[0] == c then 0
    else
      var i := FirstIndex(s[1..], c);
      assert s[..i + 1] == [s[0]] + s[1..][..i];
      i + 1
  }

  function ParsePieces(pieces: seq<string>): (r: Option<seq<(string, string)>>)
    ensures r.Some? ==> |r.value| == |pieces|
  {
    if pieces == [] then Some([])
    else match (ParsePair(pieces[0]), ParsePieces(pieces[1..]))
      case (Some(p), Some(ps)) => Some([p] + ps)
      case _ => None
  }

  /**
   * Reading a query string back into its (key, value) pairs: split on '&' and '=', each piece decoded
   * with `decodeURIComponent` (so a '+' stays a '+')
   */
  function ParseQueryString(q: string): Option<seq<(string, string)>> {
    if q == "" then Some([]) else ParsePieces(Split(q, '&'))
  }

  /** What each kept entry becomes once read back: its key and `String(value)` */
  function AsText(entries: seq<(string, Json)>): (r: seq<(string, string)>)
    ensures |r| == |entries|
    ensures forall k :: 0 <= k < |r| ==> r[k] == (entries[k].0, ToText(entries[k].1))
  {
    if entries == [] then [] else [(entries[0].0, ToText(entries[0].1))] + AsText(entries[1..])
  }

  lemma ParseEncodedPair(entry: (string, Json))
    ensures ParsePair(EncodePair(entry)) == Some((entry.0, ToText(entry.1)))
  {
    var k := EncodeURIComponent(entry.0);
    var v := EncodeURIComponent(ToText(entry.1));
    var piece := EncodePair(entry);
    EncodedHasNoSeparators(entry.0);
    var i := FirstIndex(piece, '=');
    assert piece[|k|] == '=';
    assert i == |k|;
    assert piece[..i] == k;
    assert piece[i + 1..] == v;
    DecodeEncode(entry.0);
    DecodeEncode(ToText(entry.1));
  }

  lemma {:induction false} ParseEncodedPairs(entries: seq<(string, Json)>)
    ensures ParsePieces(EncodePairs(entries)) == Some(AsText(entries))
  {
    if entries != [] {
      ParseEncodedPair(entries[0]);
      ParseEncodedPairs(entries[1..]);
      assert EncodePairs(entries)[1..] == EncodePairs(entries[1..]);
    }
  }

  /**
   * Reading the query string back gives exactly the kept entries, in entry order, each key with
   * the text of its value: nothing is lost, reordered or run together by the encoding.
   */
  lemma QueryStringRoundTrip(params: seq<(string, Json)>)
    ensures ParseQueryString(BuildQueryString(params)) == Some(AsText(KeptEntries(params)))
  {
    var kept := KeptEntries(params);
    var parts := EncodePairs(kept);
    if kept != [] {
      forall k | 0 <= k < |parts|
        ensures '&' !in parts[k]
      {
        EncodedHasNoSeparators(kept[k].0);
        EncodedHasNoSeparators(ToText(kept[k].1));
      }
      SplitJoin(parts, '&');
      ParseEncodedPairs(kept);
    }
  }

  /** An object with no entry, or with only `undefined` and `null` values, gives the empty query. */
  lemma {:induction false} EmptyQuery(params: seq<(string, Json)>)
    requires forall k :: 0 <= k < |params| ==> !Kept(params[k].1)
    ensures KeptEntries(params) == [] && BuildQueryString(params) == ""
  {
    if params != [] {
      assert !Kept(params[0].1);
      EmptyQuery(params[1..]);
    }
  }

  // ---------------------------------------------------------------------------------------------
  // Endpoints

  /** `endpoints.adminUpdatePasswords(userId)`: the id goes into the path as it is, unencoded */
  function AdminUpdatePasswords(userId: string): string {
    "/users/" + userId + "/password"
  }

  /**
   * Read back segment by segment, the route is "", "users", the id and "password" exactly when the id holds
   * no '/'; an id with a '/' spills into further segments, and the third segment is no longer the id.
   */
  lemma PasswordRouteSegments(userId: string)
    ensures '/' !in userId ==> Split(AdminUpdatePasswords(userId), '/') == ["", "users", userId, "password"]
    ensures '/' in userId ==> var parts := Split(AdminUpdatePasswords(userId), '/');
                              |parts| >= 3 && parts[..2] == ["", "users"] && parts[2] != userId
  {
    var rest := userId + ['/'] + "password";
    PasswordRoutePrefix(userId);
    if '/' !in userId {
      SplitAtSep(userId, "password", '/');
      SplitNoSep("password", '/');
    } else {
      SplitHead(rest, '/');
    }
  }

  /** The route splits into "", "users" and whatever the id followed by "/password" splits into. */
  lemma PasswordRoutePrefix(userId: string)
    ensures Split(AdminUpdatePasswords(userId), '/') == ["", "users"] + Split(userId + ['/'] + "password", '/')
  {
    var rest := userId + ['/'] + "password";
    assert AdminUpdatePasswords(userId) == "" + ['/'] + ("users" + ['/'] + rest);
    SplitAtSep("", "users" + ['/'] + rest, '/');
    SplitAtSep("users", rest, '/');
  }

  /** The first piece of a split never holds the separator. */
  lemma {:induction false} SplitHead(s: string, sep: char)
    ensures sep !in Split(s, sep)[0]
  {
    if s != [] && s[0] != sep {
      SplitHead(s[1..], sep);
    }
  }

  // ---------------------------------------------------------------------------------------------
  // generateStrongPassword

  const UppercaseChars := "ABCDEFGHIJKLMNOPQRSTUVWXYZ"
  const LowercaseChars := "abcdefghijklmnopqrstuvwxyz"
  const NumberChars := "0123456789"
  const SpecialChars := "!@#$%^&*(),.?\":{}|<>"
  const AllChars := UppercaseChars + LowercaseChars + NumberChars + SpecialChars

  const DefaultPasswordLength := 12

  function Max(a: int, b: int): int {
    if a >= b then a else b
  }

  /** The characters of `AllChars` the remaining random indices pick, in order */
  function Picked(picks: seq<nat>): (r: string)
    requires forall k :: 0 <= k < |picks| ==> picks[k] < |AllChars|
    ensures |r| == |picks| && forall k :: 0 <= k < |r| ==> r[k] == AllChars[picks[k]]
  {
    if picks == [] then [] else Picked(picks[..|picks| - 1]) + [AllChars[picks[|picks| - 1]]]
  }

  /**
   * The password before the shuffle: one character of each class picked by the first four
   * random indices, then one character of `AllChars` for each remaining position.
   */
  function Unshuffled(upper: nat, lower: nat, digit: nat, special: nat, picks: seq<nat>): (r: string)
    requires upper < |UppercaseChars| && lower < |LowercaseChars| && digit < |NumberChars| && special < |SpecialChars|
    requires forall k :: 0 <= k < |picks| ==> picks[k] < |AllChars|
    ensures |r| == 4 + |picks|
    ensures r[0] in UppercaseChars && r[1] in LowercaseChars && r[2] in NumberChars && r[3] in SpecialChars
    ensures forall k :: 0 <= k < |r| ==> r[k] in AllChars
  {
    [UppercaseChars[upper], LowercaseChars[lower], NumberChars[digit], SpecialChars[special]] + Picked(picks)
  }

  predicate HasCharOf(s: string, chars: string) {
    exists k :: 0 <= k < |s| && s[k] in chars
  }

  lemma MultisetHasCharOf(s: string, t: string, k: nat, chars: string)
    requires multiset(s) == multiset(t) && k < |t| && t[k] in chars
    ensures HasCharOf(s, chars)
  {
    assert t[k] in multiset(t);
    assert t[k] in s;
    var i :| 0 <= i < |s| && s[i] == t[k];
  }

  /**
   * `s.split("").sort(() => Math.random() - 0.5).join("")`: the characters go into an array, the
   * sort exchanges them in place as its random comparisons decide (`swaps`), and the array is
   * joined back.  Exchanges only move characters, so the result is a permutation of `s`.
   */
  method Shuffle(s: string, swaps: seq<(nat, nat)>) returns (r: string)
    requires forall k :: 0 <= k < |swaps| ==> swaps[k].0 < |s| && swaps[k].1 < |s|
    ensures |r| == |s| && multiset(r) == multiset(s)
  {
    var chars := new char[|s|];
    forall k | 0 <= k < |s| {
      chars[k] := s[k];
    }
    assert chars[..] == s;
    var j := 0;
    while j < |swaps|
      invariant 0 <= j <= |swaps|
      invariant multiset(chars[..]) == multiset(s)
    {
      var (x, y) := swaps[j];
      chars[x], chars[y] := chars[y], chars[x];
      j := j + 1;
    }
    r := chars[..];
  }

  /**
   * `generateStrongPassword(length)`.  `Math.random()` is replaced by its outcomes: `upper`,
   * `lower`, `digit` and `special` pick the four required characters, `picks` the rest, and the
   * `sort` with a random comparator is the sequence of exchanges `swaps` it performs.
   */
  method GenerateStrongPassword(upper: nat, lower: nat, digit: nat, special: nat, picks: seq<nat>,
                                swaps: seq<(nat, nat)>, length: int := DefaultPasswordLength)
    returns (password: string)
    requires upper < |UppercaseChars| && lower < |LowercaseChars| && digit < |NumberChars| && special < |SpecialChars|
    requires |picks| == Max(length, 4) - 4 && forall k :: 0 <= k < |picks| ==> picks[k] < |AllChars|
    requires forall k :: 0 <= k < |swaps| ==> swaps[k].0 < Max(length, 4) && swaps[k].1 < Max(length, 4)
    ensures |password| == Max(length, 4)
    ensures multiset(password) == multiset(Unshuffled(upper, lower, digit, special, picks))
    ensures HasCharOf(password, UppercaseChars) && HasCharOf(password, LowercaseChars)
    ensures HasCharOf(password, NumberChars) && HasCharOf(password, SpecialChars)
    ensures forall k :: 0 <= k < |password| ==> password[k] in AllChars
  {
    password := FillPassword(upper, lower, digit, special, picks, length);
    ghost var before := password;
    password := Shuffle(password, swaps);
    ShuffledKeepsClasses(password, before);
  }

  /** The loop of `generateStrongPassword` before the shuffle: one character of each class, then the picks */
  method FillPassword(upper: nat, lower: nat, digit: nat, special: nat, picks: seq<nat>, length: int)
    returns (password: string)
    requires upper < |UppercaseChars| && lower < |LowercaseChars| && digit < |NumberChars| && special < |SpecialChars|
    requires |picks| == Max(length, 4) - 4 && forall k :: 0 <= k < |picks| ==> picks[k] < |AllChars|
    ensures password == Unshuffled(upper, lower, digit, special, picks)
  {
    var u, l, n, sp := UppercaseChars[upper], LowercaseChars[lower], NumberChars[digit], SpecialChars[special];
    password := "";
    password := password + [u];
    password := password + [l];
    password := password + [n];
    password := password + [sp];
    assert password == [u, l, n, sp] + Picked(picks[..0]);
    var i := 4;
    while i < length
      invariant 4 <= i <= Max(length, 4)
      invariant password == Unshuffled(upper, lower, digit, special, picks[..i - 4])
    {
      UnshuffledStep(upper, lower, digit, special, picks, i - 4);
      password := password + [AllChars[picks[i - 4]]];
      i := i + 1;
    }
    assert picks[..i - 4] == picks;
  }

  lemma UnshuffledStep(upper: nat, lower: nat, digit: nat, special: nat, picks: seq<nat>, j: nat)
    requires upper < |UppercaseChars| && lower < |LowercaseChars| && digit < |NumberChars| && special < |SpecialChars|
    requires j < |picks| && forall k :: 0 <= k < |picks| ==> picks[k] < |AllChars|
    ensures Unshuffled(upper, lower, digit, special, picks[..j + 1])
            == Unshuffled(upper, lower, digit, special, picks[..j]) + [AllChars[picks[j]]]
  {
    assert picks[..j + 1][..j] == picks[..j];
    var head := [UppercaseChars[upper], LowercaseChars[lower], NumberChars[digit], SpecialChars[special]];
    assert Picked(picks[..j + 1]) == Picked(picks[..j]) + [AllChars[picks[j]]];
    assert head + (Picked(picks[..j]) + [AllChars[picks[j]]]) == head + Picked(picks[..j]) + [AllChars[picks[j]]];
  }

  /** A permutation of a password that opens with one character of each class keeps all four classes and the alphabet. */
  lemma ShuffledKeepsClasses(password: string, before: string)
    requires multiset(password) == multiset(before) && |before| >= 4
    requires before[0] in UppercaseChars && before[1] in LowercaseChars
    requires before[2] in NumberChars && before[3] in SpecialChars
    requires forall k :: 0 <= k < |before| ==> before[k] in AllChars
    ensures HasCharOf(password, UppercaseChars) && HasCharOf(password, LowercaseChars)
    ensures HasCharOf(password, NumberChars) && HasCharOf(password, SpecialChars)
    ensures forall k :: 0 <= k < |password| ==> password[k] in AllChars
  {
    MultisetHasCharOf(password, before, 0, UppercaseChars);
    MultisetHasCharOf(password, before, 1, LowercaseChars);
    MultisetHasCharOf(password, before, 2, NumberChars);
    MultisetHasCharOf(password, before, 3, SpecialChars);
    forall k | 0 <= k < |password|
      ensures password[k] in AllChars
    {
      assert password[k] in multiset(before);
    }
  }
}
