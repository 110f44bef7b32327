/** The signaling wire codec of server/src/signaling_ws.c: the four-character
    string escaper, its in-place inverse, the "first `"key"`, then `:`, then
    value" field scanner, and the exact text of the two outbound messages. */
module WireCodec {
  import opened CText

  /** The characters json_escape rewrites: quote, backslash, LF and CR. */
  predicate NeedsEscape(c: char) {
    c == '"' || c == '\\' || c == '\n' || c == '\r'
  }

  /** What json_escape writes for one input character. */
  function EscapeChar(c: char): (r: string)
    ensures NeedsEscape(c) ==> |r| == 2 && r[0] == '\\'
    ensures !NeedsEscape(c) ==> r == [c]
  {
    if c == '"' || c == '\\' then ['\\', c]
    else if c == '\n' then ['\\', 'n']
    else if c == '\r' then ['\\', 'r']
    else [c]
  }

  /** The number of characters of `s` that take a two-character escape
      (json_escape's first pass). */
  function CountSpecial(s: string): nat {
    if s == [] then 0
    else CountSpecial(s[..|s| - 1]) + (if NeedsEscape(s[|s| - 1]) then 1 else 0)
  }

  /** The text json_escape produces (its second pass), one character at a time. */
  function Escape(s: string): (r: string)
    ensures |r| == |s| + CountSpecial(s)
  {
    if s == [] then [] else Escape(s[..|s| - 1]) + EscapeChar(s[|s| - 1])
  }

  lemma {:induction false} EscapeConcat(a: string, b: string)
    ensures Escape(a + b) == Escape(a) + Escape(b)
  {
    if b != [] {
      var ab, front, last := a + b, b[..|b| - 1], b[|b| - 1];
      assert ab[..|ab| - 1] == a + front;
      assert ab[|ab| - 1] == last;
      assert Escape(ab) == Escape(a + front) + EscapeChar(last);
      EscapeConcat(a, front);
      assert Escape(b) == Escape(front) + EscapeChar(last);
    } else {
      assert a + b == a;
    }
  }

  lemma EscapeSingle(c: char)
    ensures Escape([c]) == EscapeChar(c)
  {
    assert [c][..0] == [];
  }

  lemma ConcatAssoc<T>(x: seq<T>, y: seq<T>, z: seq<T>)
    ensures (x + y) + z == x + (y + z)
  {
  }

  /** Escaping works left to right: the first character's replacement comes first. */
  lemma EscapeCons(s: string)
    requires s != []
    ensures Escape(s) == EscapeChar(s[0]) + Escape(s[1..])
  {
    var h := [s[0]];
    assert h + s[1..] == s;
    EscapeConcat(h, s[1..]);
    EscapeSingle(s[0]);
  }

  /** Escaping adds only backslashes and the letters n and r: any other
      character absent from the input is absent from the output. */
  lemma {:induction false} EscapeAvoids(s: string, c: char)
    requires c !in s && c != '\\' && c != 'n' && c != 'r'
    ensures c !in Escape(s)
  {
    if s != [] {
      assert s[|s| - 1] in s;
      assert forall x :: x in s[..|s| - 1] ==> x in s;
      EscapeAvoids(s[..|s| - 1], c);
    }
  }

  /** json_escape: a first loop sizes the buffer (length + escapes + NUL), a
      second fills it with an output index. Allocation is taken to succeed. */
  method JsonEscape(input: string) returns (out: array<char>)
    ensures out.Length == |input| + CountSpecial(input) + 1
    ensures out[..out.Length - 1] == Escape(input) && out[out.Length - 1] == '\0'
  {
    var extra := 0;
    var i := 0;
    while i < |input|
      invariant 0 <= i <= |input|
      invariant extra == CountSpecial(input[..i])
    {
      assert input[..i + 1][..i] == input[..i];
      if NeedsEscape(input[i]) {
        extra := extra + 1;
      }
      i := i + 1;
    }
    assert input[..i] == input;
    out := new char[|input| + extra + 1];
    var j := 0;
    i := 0;
    while i < |input|
      invariant 0 <= i <= |input|
      invariant 0 <= j <= out.Length - 1
      invariant out[..j] == Escape(input[..i])
    {
      EscapePrefix(input, i);
      j := PutEscaped(out, j, input[i]);
      i := i + 1;
    }
    assert input[..i] == input;
    out[j] := '\0';
  }

  /** Escaping one more character of a prefix extends its escaping, which
      stays within the escaping of the whole. */
  lemma EscapePrefix(s: string, i: nat)
    requires i < |s|
    ensures Escape(s[..i + 1]) == Escape(s[..i]) + EscapeChar(s[i])
    ensures |Escape(s[..i + 1])| <= |Escape(s)|
  {
    assert s[..i + 1][..i] == s[..i];
    EscapeConcat(s[..i + 1], s[i + 1..]);
    assert s[..i + 1] + s[i + 1..] == s;
  }

  /** One step of json_escape's second loop: the replacement for `c` at `j`. */
  method PutEscaped(out: array<char>, j: nat, c: char) returns (next: nat)
    requires j + |EscapeChar(c)| <= out.Length
    modifies out
    ensures next == j + |EscapeChar(c)|
    ensures out[..next] == old(out[..j]) + EscapeChar(c)
  {
    if c == '"' || c == '\\' {
      out[j] := '\\';
      out[j + 1] := c;
      next := j + 2;
    } else if c == '\n' {
      out[j] := '\\';
      out[j + 1] := 'n';
      next := j + 2;
    } else if c == '\r' {
      out[j] := '\\';
      out[j + 1] := 'r';
      next := j + 2;
    } else {
      out[j] := c;
      next := j + 1;
    }
  }

  /** The second character of an escape pair json_unescape_inplace undoes. */
  predicate IsEscapeLetter(c: char) {
    c == 'n' || c == 'r' || c == '"' || c == '\\'
  }

  function Unescaped(c: char): char
    requires IsEscapeLetter(c)
  {
    if c == 'n' then '\n' else if c == 'r' then '\r' else c
  }

  /** json_unescape_inplace as a single left-to-right pass: a backslash followed
      by n, r, quote or backslash becomes one character; any other backslash,
      including a trailing one, is copied as it stands. */
  function Unescape(s: string): (r: string)
    ensures |r| <= |s|
    ensures '\0' !in s ==> '\0' !in r
    decreases |s|
  {
    if s == [] then []
    else if s[0] == '\\' && |s| >= 2 && IsEscapeLetter(s[1]) then [Unescaped(s[1])] + Unescape(s[2..])
    else [s[0]] + Unescape(s[1..])
  }

  /** Unescaping undoes escaping, for every string. */
  lemma UnescapeEscape(s: string)
    ensures Unescape(Escape(s)) == s
  {
    UnescapeAfterEscape(s, []);
    assert Escape(s) + [] == Escape(s);
  }

  /** Unescaping reads an escaped text back whatever follows it: each
      replacement is consumed whole before the next begins. */
  lemma {:induction false} UnescapeAfterEscape(a: string, t: string)
    ensures Unescape(Escape(a) + t) == a + Unescape(t)
    decreases |a|
  {
    if a == [] {
      assert Escape(a) + t == t;
    } else {
      var rest := Escape(a[1..]) + t;
      EscapeCons(a);
      ConcatAssoc(EscapeChar(a[0]), Escape(a[1..]), t);
      UnescapeEscapeChar(a[0], rest);
      UnescapeAfterEscape(a[1..], t);
      ConcatAssoc([a[0]], a[1..], Unescape(t));
      assert [a[0]] + a[1..] == a;
    }
  }

  /** Unescaping reads one character's replacement back as that character,
      whatever follows it. */
  lemma UnescapeEscapeChar(c: char, tail: string)
    ensures Unescape(EscapeChar(c) + tail) == [c] + Unescape(tail)
  {
    var e := EscapeChar(c) + tail;
    if NeedsEscape(c) {
      assert e[2..] == tail;
      UnescapePair(e);
    } else {
      assert e[1..] == tail;
      UnescapeOne(e);
    }
  }

  /** A string with no backslash is its own unescaping. */
  lemma {:induction false} UnescapePlain(s: string)
    requires '\\' !in s
    ensures Unescape(s) == s
  {
    if s != [] {
      assert s[0] in s;
      assert forall c :: c in s[1..] ==> c in s;
      UnescapePlain(s[1..]);
      assert [s[0]] + s[1..] == s;
    }
  }

  /** json_unescape_inplace: strlen, then a read index `i` and a write index
      `j <= i` over the same buffer, and a new terminator at `j`. */
  method UnescapeInPlace(value: array<char>)
    requires '\0' in value[..]
    modifies value
    ensures '\0' in value[..]
    ensures CStr(value[..]) == Unescape(CStr(old(value[..])))
  {
    ghost var orig := value[..];
    var len := Strlen(value);
    ghost var text := orig[..len];
    var j := 0;
    var i := 0;
    while i < len
      invariant 0 <= j <= i <= len < value.Length
      invariant value[i..] == orig[i..]
      invariant value[..j] + Unescape(orig[i..len]) == Unescape(text)
    {
      i, j := UnescapeStep(value, i, j, len, orig);
    }
    assert orig[i..len] == [];
    value[j] := '\0';
    assert value[..][..j] == Unescape(text);
    assert value[..][j] == '\0';
  }

  /** One turn of json_unescape_inplace's loop: reads at `i`, writes at `j`. */
  method UnescapeStep(value: array<char>, i: nat, j: nat, len: nat, ghost orig: seq<char>)
    returns (i': nat, j': nat)
    requires j <= i < len < value.Length == |orig|
    requires value[i..] == orig[i..]
    modifies value
    ensures j' <= i' <= len && j < j' && i < i'
    ensures value[i'..] == orig[i'..]
    ensures value[..j'] + Unescape(orig[i'..len]) == old(value[..j]) + Unescape(orig[i..len])
  {
    if value[i] == '\\' && i + 1 < len && IsEscapeLetter(value[i + 1]) {
      UnescapePairAt(value, i, j, len, orig);
      i', j' := i + 2, j + 1;
    } else {
      CopyCharAt(value, i, j, len, orig);
      i', j' := i + 1, j + 1;
    }
  }

  /** A backslash and an escape letter at `i` become one character at `j`. */
  method UnescapePairAt(value: array<char>, i: nat, j: nat, len: nat, ghost orig: seq<char>)
    requires j <= i && i + 1 < len < value.Length == |orig|
    requires value[i..] == orig[i..] && value[i] == '\\' && IsEscapeLetter(value[i + 1])
    modifies value
    ensures value[i + 2..] == orig[i + 2..]
    ensures value[..j + 1] + Unescape(orig[i + 2..len]) == old(value[..j]) + Unescape(orig[i..len])
  {
    ghost var rest := orig[i..len];
    ghost var done := value[..j];
    assert rest[0] == value[i];
    var next := value[i + 1];
    assert rest[1] == next;
    UnescapePair(rest);
    SliceTail(orig, i, len, 2);
    SuffixOfSuffix(value[..], orig, i, 2);
    value[j] := Unescaped(next);
    assert value[..j + 1] == done + [Unescaped(next)];
    ConcatAssoc(done, [Unescaped(next)], Unescape(orig[i + 2..len]));
  }

  /** Any other character at `i` is copied to `j`. */
  method CopyCharAt(value: array<char>, i: nat, j: nat, len: nat, ghost orig: seq<char>)
    requires j <= i < len < value.Length == |orig|
    requires value[i..] == orig[i..]
    requires !(value[i] == '\\' && i + 1 < len && IsEscapeLetter(value[i + 1]))
    modifies value
    ensures value[i + 1..] == orig[i + 1..]
    ensures value[..j + 1] + Unescape(orig[i + 1..len]) == old(value[..j]) + Unescape(orig[i..len])
  {
    ghost var rest := orig[i..len];
    ghost var done := value[..j];
    assert rest[0] == value[i];
    assert |rest| >= 2 ==> rest[1] == value[i + 1];
    UnescapeOne(rest);
    SliceTail(orig, i, len, 1);
    SuffixOfSuffix(value[..], orig, i, 1);
    value[j] := value[i];
    assert value[..j + 1] == done + [rest[0]];
    ConcatAssoc(done, [rest[0]], Unescape(orig[i + 1..len]));
  }

  lemma SliceTail<T>(s: seq<T>, i: nat, len: nat, k: nat)
    requires i + k <= len <= |s|
    ensures s[i..len][k..] == s[i + k..len]
  {
  }

  lemma SuffixOfSuffix<T>(a: seq<T>, b: seq<T>, i: nat, k: nat)
    requires i + k <= |a| == |b| && a[i..] == b[i..]
    ensures a[i + k..] == b[i + k..]
  {
    assert a[i + k..] == a[i..][k..];
    assert b[i + k..] == b[i..][k..];
  }

  lemma UnescapePair(s: string)
    requires |s| >= 2 && s[0] == '\\' && IsEscapeLetter(s[1])
    ensures Unescape(s) == [Unescaped(s[1])] + Unescape(s[2..])
  {
  }

  lemma UnescapeOne(s: string)
    requires s != [] && !(s[0] == '\\' && |s| >= 2 && IsEscapeLetter(s[1]))
    ensures Unescape(s) == [s[0]] + Unescape(s[1..])
  {
  }

  /** The pattern extract_json_* search for: the key in double quotes (built
      with snprintf into a 64-byte buffer). */
  function KeyPattern(key: string): string {
    Snprintf("\"" + key + "\"", 64)
  }

  /** Where the value of `key` starts to be scanned: the first ':' at or after
      the first occurrence of the quoted key, anywhere in the text. */
  function KeyColon(json: string, key: string): (r: Option<nat>)
    ensures r.Some? ==> r.value < |json| && json[r.value] == ':'
  {
    match Find(json, KeyPattern(key), 0)
    case None => None
    case Some(p) => IndexOf(json, ':', p)
  }

  /** The raw text between the first quote after that colon and the next quote. */
  function RawString(json: string, key: string): (r: Option<(nat, nat)>)
    ensures r.Some? ==> r.value.0 <= r.value.1 < |json| && json[r.value.1] == '"'
    ensures r.Some? ==> '"' !in json[r.value.0..r.value.1]
    ensures r.Some? ==> 0 < r.value.0 && json[r.value.0 - 1] == '"'
  {
    match KeyColon(json, key)
    case None => None
    case Some(c) =>
      match IndexOf(json, '"', c)
      case None => None
      case Some(q) =>
        match IndexOf(json, '"', q + 1)
        case None => None
        case Some(e) => Some((q + 1, e))
  }

  lemma RawStringAt(json: string, key: string, c: nat, q: nat, e: nat)
    requires KeyColon(json, key) == Some(c)
    requires IndexOf(json, '"', c) == Some(q) && IndexOf(json, '"', q + 1) == Some(e)
    ensures var r := RawString(json, key); r.Some? && r.value.0 == q + 1 && r.value.1 == e
  {
  }

  /** extract_json_string into a buffer of `outLen` bytes: fails (leaving the
      buffer alone) when the key, the colon, the opening or the closing quote
      is missing; otherwise copies the raw text cut to outLen - 1 characters
      and unescapes it. */
  function ExtractString(json: string, key: string, outLen: nat): (r: Option<string>)
    requires outLen > 0
    ensures r.Some? <==> RawString(json, key).Some?
    ensures r.Some? ==> |r.value| < outLen && '"' !in r.value
  {
    match RawString(json, key)
    case None => None
    case Some(span) =>
      var raw := Snprintf(json[span.0..span.1], outLen);
      UnescapeNoNewQuote(raw);
      Some(Unescape(raw))
  }

  /** Unescaping a quote-free string introduces no quote. */
  lemma {:induction false} UnescapeNoNewQuote(s: string)
    requires '"' !in s
    ensures '"' !in Unescape(s)
  {
    if s != [] {
      assert forall c :: c in s[1..] ==> c in s;
      if s[0] == '\\' && |s| >= 2 && IsEscapeLetter(s[1]) {
        assert s[1] in s;
        assert forall c :: c in s[2..] ==> c in s;
        UnescapeNoNewQuote(s[2..]);
      } else {
        assert s[0] in s;
        UnescapeNoNewQuote(s[1..]);
      }
    }
  }

  /** extract_json_int: atoi of the text right after the colon. */
  function ExtractInt(json: string, key: string): (r: Option<int>)
    ensures r.Some? <==> KeyColon(json, key).Some?
  {
    match KeyColon(json, key)
    case None => None
    case Some(c) => Some(Atoi(json[c + 1..]))
  }

  /** What extract_json_string yields once the raw value is located and
      fits the buffer. */
  lemma ExtractAtSpan(json: string, key: string, outLen: nat, i: nat, j: nat, raw: string)
    requires var r := RawString(json, key); r.Some? && r.value.0 == i && r.value.1 == j
    requires i <= j <= |json| && json[i..j] == raw && |raw| < outLen
    ensures ExtractString(json, key, outLen) == Some(Unescape(raw))
  {
  }

  /** extract_json_string over a caller's buffer: strstr for the quoted key,
      strchr for the colon and the two quotes, a copy cut to the buffer, a
      terminator and an in-place unescape. On failure the buffer is untouched. */
  method ExtractJsonString(json: string, key: string, out: array<char>) returns (rc: int)
    requires out.Length > 0 && '\0' !in json
    modifies out
    ensures rc == 0 || rc == -1
    ensures rc == -1 <==> ExtractString(json, key, out.Length).None?
    ensures rc == -1 ==> out[..] == old(out[..])
    ensures rc == 0 ==> '\0' in out[..] && ExtractString(json, key, out.Length) == Some(CStr(out[..]))
  {
    var pos := Find(json, KeyPattern(key), 0);
    if pos.None? {
      return -1;
    }
    var colon := IndexOf(json, ':', pos.value);
    if colon.None? {
      return -1;
    }
    var open := IndexOf(json, '"', colon.value);
    if open.None? {
      return -1;
    }
    var start := open.value + 1;
    var end := IndexOf(json, '"', start);
    if end.None? {
      return -1;
    }
    ghost var span := RawString(json, key);
    assert span.Some? && span.value.0 == start && span.value.1 == end.value;
    CopyValue(json, start, end.value, out);
    assert ExtractString(json, key, out.Length) == Some(Unescape(CStr(out[..])));
    UnescapeInPlace(out);
    rc := 0;
  }

  /** The copy of extract_json_string: the raw value, cut to out_len - 1
      characters, then a terminator. */
  method CopyValue(json: string, start: nat, stop: nat, out: array<char>)
    requires start <= stop <= |json| && '\0' !in json && out.Length > 0
    modifies out
    ensures '\0' in out[..] && CStr(out[..]) == Snprintf(json[start..stop], out.Length)
  {
    var len := stop - start;
    if len >= out.Length {
      len := out.Length - 1;
    }
    ghost var raw := Snprintf(json[start..stop], out.Length);
    forall k | 0 <= k < len {
      out[k] := json[start + k];
    }
    out[len] := '\0';
    assert out[..len] == raw;
    assert '\0' !in raw by {
      assert forall k :: 0 <= k < len ==> raw[k] == json[start + k];
    }
    CStrAt(out[..], len);
  }

  /** The contents of a buffer with no NUL before a NUL at `n`. */
  lemma CStrAt(buf: seq<char>, n: nat)
    requires n < |buf| && buf[n] == '\0' && '\0' !in buf[..n]
    ensures CStr(buf) == buf[..n]
  {
    IndexOfAtFirst(buf, '\0', 0, n);
  }

  /** extract_json_int: on success the value atoi reads after the colon, on
      failure the caller's value left as it was. */
  method ExtractJsonInt(json: string, key: string, current: int) returns (rc: int, value: int)
    ensures rc == 0 || rc == -1
    ensures rc == 0 <==> ExtractInt(json, key).Some?
    ensures value == ExtractInt(json, key).GetOr(current)
  {
    var pos := Find(json, KeyPattern(key), 0);
    if pos.None? {
      return -1, current;
    }
    var colon := IndexOf(json, ':', pos.value);
    if colon.None? {
      return -1, current;
    }
    value := Atoi(json[colon.value + 1..]);
    assert ExtractInt(json, key) == Some(value);
    rc := 0;
  }

  /** The text cs_signaling_broadcast_sdp formats: the type is not escaped,
      the description is. */
  function SdpWire(sdpType: string, sdp: string): string {
    SdpText(sdpType, Escape(sdp))
  }

  /** The SDP message around an already escaped description. */
  function SdpText(sdpType: string, escaped: string): string {
    "{\"type\":\"" + sdpType + "\",\"sdp\":\"" + escaped + "\"}"
  }

  /** The text cs_signaling_broadcast_ice formats: the candidate is escaped,
      the index printed with %d, the media id copied unescaped. */
  function IceWire(candidate: string, mlineIndex: int, mid: string): string {
    "{\"type\":\"ice\",\"candidate\":\"" + Escape(candidate) + "\",\"sdpMLineIndex\":"
      + IntToDecimal(mlineIndex) + ",\"sdpMid\":\"" + mid + "\"}"
  }

  /** What cs_signaling_broadcast_sdp leaves in the mailbox: SdpWire cut by
      snprintf to the buffer of strlen(type) + strlen(escaped) + 32 bytes. */
  function StagedSdp(sdpType: string, sdp: string): (r: string)
    ensures r == SdpWire(sdpType, sdp)
  {
    Snprintf(SdpWire(sdpType, sdp), |sdpType| + |Escape(sdp)| + 32)
  }

  /** What cs_signaling_broadcast_ice leaves in the mailbox: IceWire, with "0"
      for a NULL media id, cut to strlen(escaped) + strlen(mid, or 1) + 64 bytes. */
  function StagedIce(candidate: string, mlineIndex: int, mid: Option<string>): (r: string)
    ensures r <= IceWire(candidate, mlineIndex, mid.GetOr("0"))
    ensures r == IceWire(candidate, mlineIndex, mid.GetOr("0")) <==> |IntToDecimal(mlineIndex)| <= 5
  {
    var m := mid.GetOr("0");
    Snprintf(IceWire(candidate, mlineIndex, m), |Escape(candidate)| + (if mid.Some? then |mid.value| else 1) + 64)
  }

  /** The ICE text fits its buffer exactly when the index lies in
      -9999 .. 99999; any other index loses the closing brace at least. */
  lemma IceFitsExactly(candidate: string, mlineIndex: int, mid: Option<string>)
    ensures StagedIce(candidate, mlineIndex, mid) == IceWire(candidate, mlineIndex, mid.GetOr("0"))
        <==> -9999 <= mlineIndex <= 99999
  {
    if mlineIndex < 0 {
      NatToDecimalLength(-mlineIndex, 4);
      assert Pow10(4) == 10000;
    } else {
      NatToDecimalLength(mlineIndex, 5);
      assert Pow10(5) == 100000;
    }
  }

  /** A quoted key is absent wherever the text does not open with a quote. */
  lemma NoKeyWithoutQuote(s: string, key: string, j: nat)
    requires j < |s| && s[j] != '"'
    ensures !OccursAt(s, "\"" + key + "\"", j)
  {
    var p := "\"" + key + "\"";
    assert j + |p| <= |s| ==> s[j..j + |p|][0] == s[j] != p[0];
  }

  /** The fixed frame of an SDP message whose type takes `n` characters,
      with no quote, and whose escaped description takes `m`. */
  predicate SdpFrame(w: string, n: nat, m: nat) {
    |w| == 20 + n + m && w[..9] == "{\"type\":\"" && w[9 + n..18 + n] == "\",\"sdp\":\""
    && w[18 + n + m..] == "\"}" && '"' !in w[9..9 + n]
  }

  /** Where each part of an SDP message sits in its text. */
  lemma SdpTextLayout(t: string, e: string)
    requires '"' !in t
    ensures var w, n, m := SdpText(t, e), |t|, |e|;
      SdpFrame(w, n, m) && w[9..9 + n] == t && w[18 + n..18 + n + m] == e
  {
    var l1, l2, l3 := "{\"type\":\"", "\",\"sdp\":\"", "\"}";
    PartOf5(l1, t, l2, e, l3);
  }

  /** The five parts of a concatenation, read back by position. */
  lemma PartOf5(a: string, b: string, c: string, d: string, e: string)
    ensures var w, i, j, k, l := a + b + c + d + e, |a|, |a| + |b|, |a| + |b| + |c|, |a| + |b| + |c| + |d|;
      |w| == l + |e| && w[..i] == a && w[i..j] == b && w[j..k] == c && w[k..l] == d && w[l..] == e
  {
  }

  lemma SliceOfSlice(s: string, i: nat, j: nat, k: nat, l: nat)
    requires i <= j <= |s| && k <= l <= j - i
    ensures s[i..j][k..l] == s[i + k..i + l]
  {
    assert forall x :: 0 <= x < l - k ==> s[i..j][k..l][x] == s[i + k..i + l][x];
  }

  /** The characters of the frame, one by one. */
  lemma SdpFrameChars(w: string, n: nat, m: nat)
    requires SdpFrame(w, n, m)
    ensures w[0] == '{' && w[1] == '"' && w[6] == '"' && w[7] == ':' && w[8] == '"'
    ensures '"' !in w[2..6] && w[2] == 't'
    ensures w[9 + n] == '"' && w[10 + n] == ',' && w[11 + n..16 + n] == "\"sdp\""
    ensures w[16 + n] == ':' && w[17 + n] == '"' && w[18 + n + m] == '"'
    ensures forall j :: 9 <= j < 9 + n ==> w[j] != '"'
  {
    var l1, l2 := "{\"type\":\"", "\",\"sdp\":\"";
    var a, b := w[..9], w[9 + n..18 + n];
    assert w[0] == a[0] && w[1] == a[1] && w[6] == a[6] && w[7] == a[7] && w[8] == a[8];
    assert w[2..6] == a[2..6];
    assert a[2..6] == l1[2..6];
    assert w[9 + n] == b[0] && w[10 + n] == b[1] && w[16 + n] == b[7] && w[17 + n] == b[8];
    SliceOfSlice(w, 9 + n, 18 + n, 2, 7);
    assert b[2..7] == l2[2..7];
    assert w[18 + n + m] == w[18 + n + m..][0];
    forall j | 9 <= j < 9 + n
      ensures w[j] != '"'
    {
      assert w[j] == w[9..9 + n][j - 9];
    }
  }

  /** The type field of a framed SDP message spans the type. */
  lemma SdpTypeSpan(w: string, n: nat, m: nat)
    requires SdpFrame(w, n, m)
    ensures var r := RawString(w, "type"); r.Some? && r.value.0 == 9 && r.value.1 == 9 + n
  {
    SdpFrameChars(w, n, m);
    var pt := KeyPattern("type");
    assert pt == "\"type\"";
    assert w[1..7] == pt by {
      assert w[..9][1..7] == pt;
    }
    NoKeyWithoutQuote(w, "type", 0);
    FindAt(w, pt, 0, 1);
    IndexOfAtFirst(w, ':', 1, 7);
    IndexOfAtFirst(w, '"', 7, 8);
    IndexOfAtFirst(w, '"', 9, 9 + n);
    RawStringAt(w, "type", 7, 8, 9 + n);
  }

  /** The first quoted "sdp" of a framed SDP message is the key itself, not
      any part of a type of at least 4 characters before it. */
  lemma SdpKeyFirst(w: string, n: nat, m: nat)
    requires SdpFrame(w, n, m) && 4 <= n
    ensures Find(w, KeyPattern("sdp"), 0) == Some(11 + n)
  {
    SdpFrameChars(w, n, m);
    var ps := KeyPattern("sdp");
    assert ps == "\"sdp\"";
    forall j | 0 <= j < 11 + n
      ensures !OccursAt(w, ps, j)
    {
      if j == 0 || j == 7 || j == 10 + n || 9 <= j < 9 + n {
        NoKeyWithoutQuote(w, "sdp", j);
      } else if 2 <= j < 6 {
        assert w[j] == w[2..6][j - 2];
        NoKeyWithoutQuote(w, "sdp", j);
      } else if j == 1 {
        assert !OccursAt(w, ps, 1) by {
          assert w[j + 1] == 't' != ps[1];
        }
      } else if j == 6 {
        assert w[j + 1] == ':' != ps[1];
      } else if j == 8 {
        assert w[j + 4] != '"';
      } else {
        assert j == 9 + n;
        assert w[j + 1] == ',' != ps[1];
      }
    }
    FindAt(w, ps, 0, 11 + n);
  }

  /** The description field of a framed SDP message (type of at least 4
      characters) runs from its opening quote to the next quote, `k`
      characters on. */
  lemma SdpBodySpan(w: string, n: nat, m: nat, k: nat)
    requires SdpFrame(w, n, m) && 4 <= n && k <= m
    requires w[18 + n + k] == '"' && '"' !in w[18 + n..18 + n + k]
    ensures var r := RawString(w, "sdp"); r.Some? && r.value.0 == 18 + n && r.value.1 == 18 + n + k
  {
    SdpFrameChars(w, n, m);
    SdpKeyFirst(w, n, m);
    IndexOfAtFirst(w, ':', 11 + n, 16 + n);
    IndexOfAtFirst(w, '"', 16 + n, 17 + n);
    IndexOfAtFirst(w, '"', 18 + n, 18 + n + k);
    RawStringAt(w, "sdp", 16 + n, 17 + n, 18 + n + k);
  }

  /** The type field of an SDP message decodes to the type (up to 15
      characters, with no quote or backslash). */
  lemma SdpTypeDecodes(t: string, sdp: string)
    requires |t| < 16 && '"' !in t && '\\' !in t
    ensures ExtractString(SdpWire(t, sdp), "type", 16) == Some(t)
  {
    var w, n, m := SdpWire(t, sdp), |t|, |Escape(sdp)|;
    SdpTextLayout(t, Escape(sdp));
    SdpTypeSpan(w, n, m);
    assert Snprintf(w[9..9 + n], 16) == t;
    UnescapePlain(t);
  }

  /** The description field of an SDP message decodes to the description
      (with no quote, escaped into fewer than 8192 characters) when the type
      before it has at least 4 characters. */
  lemma SdpBodyDecodes(t: string, sdp: string)
    requires 4 <= |t| && '"' !in t
    requires '"' !in sdp && |Escape(sdp)| < 8192
    ensures ExtractString(SdpWire(t, sdp), "sdp", 8192) == Some(sdp)
  {
    SdpTextLayout(t, Escape(sdp));
    EscapeAvoids(sdp, '"');
    BodyOfFrame(SdpWire(t, sdp), |t|, |Escape(sdp)|);
    UnescapeEscape(sdp);
  }

  /** A framed SDP message whose description text of `m` characters is
      quote-free and shorter than 8192 characters reads back that text
      unescaped. */
  lemma BodyOfFrame(w: string, n: nat, m: nat)
    requires SdpFrame(w, n, m) && 4 <= n && '"' !in w[18 + n..18 + n + m] && m < 8192
    ensures ExtractString(w, "sdp", 8192) == Some(Unescape(w[18 + n..18 + n + m]))
  {
    BodyClosed(w, n, m);
    SdpBodySpan(w, n, m, m);
  }

  lemma BodyClosed(w: string, n: nat, m: nat)
    requires SdpFrame(w, n, m)
    ensures w[18 + n + m] == '"'
  {
    assert w[18 + n + m] == w[18 + n + m..][0];
  }

  /** Decoding the SDP message cs_signaling_broadcast_sdp formats gives back
      its type and its description, provided the description holds no quote
      and its escaped form fits the 8192-byte receive buffer, and the type is
      4 to 15 characters with no quote or backslash (as "offer" and "answer"). */
  lemma SdpWireDecodes(t: string, sdp: string)
    requires 4 <= |t| < 16 && '"' !in t && '\\' !in t
    requires '"' !in sdp && |Escape(sdp)| < 8192
    ensures ExtractString(SdpWire(t, sdp), "type", 16) == Some(t)
    ensures ExtractString(SdpWire(t, sdp), "sdp", 8192) == Some(sdp)
  {
    SdpTypeDecodes(t, sdp);
    SdpBodyDecodes(t, sdp);
  }

  /** "offer" and "answer" meet the conditions on a type that decodes. */
  lemma PlainTypeName(t: string)
    requires t == "answer" || t == "offer"
    ensures 4 <= |t| < 16 && '"' !in t && '\\' !in t && '\0' !in t
  {
  }

  /** An SDP message holds a NUL only where its type or description does. */
  lemma SdpWireNoNul(t: string, sdp: string)
    requires '\0' !in t && '\0' !in sdp
    ensures '\0' !in SdpWire(t, sdp)
  {
    EscapeAvoids(sdp, '\0');
  }

  /** The scanner stops at the first quote even when a backslash escapes it:
      a description `a`, quote, `b` comes back as `a` and a lone backslash. */
  lemma QuoteCutsDescription(t: string, a: string, b: string)
    requires 4 <= |t| && '"' !in t && '"' !in a && |Escape(a)| + 1 < 8192
    ensures ExtractString(SdpWire(t, a + "\"" + b), "sdp", 8192) == Some(a + "\\")
    ensures ExtractString(SdpWire(t, a + "\"" + b), "sdp", 8192) != Some(a + "\"" + b)
  {
    QuoteCutRaw(t, a, b);
    UnescapeTrailingBackslash(a);
    assert (a + "\\")[|a|] != (a + "\"" + b)[|a|];
  }

  lemma QuoteCutRaw(t: string, a: string, b: string)
    requires 4 <= |t| && '"' !in t && '"' !in a && |Escape(a)| + 1 < 8192
    ensures ExtractString(SdpWire(t, a + "\"" + b), "sdp", 8192) == Some(Unescape(Escape(a) + "\\"))
  {
    EscapeWithQuote(a, b);
    EscapeAvoids(a, '"');
    QuoteCutExtract(t, Escape(a + "\"" + b), Escape(a), Escape(b));
  }

  lemma EscapeWithQuote(a: string, b: string)
    ensures Escape(a + "\"" + b) == Escape(a) + "\\\"" + Escape(b)
  {
    EscapeConcat(a + "\"", b);
    EscapeConcat(a, "\"");
    EscapeSingle('"');
  }

  lemma QuoteCutExtract(t: string, e: string, ea: string, eb: string)
    requires 4 <= |t| && '"' !in t && '"' !in ea && e == ea + "\\\"" + eb && |ea| + 1 < 8192
    ensures ExtractString(SdpText(t, e), "sdp", 8192) == Some(Unescape(ea + "\\"))
  {
    QuoteCutSpan(t, e, ea, eb);
    ExtractAtSpan(SdpText(t, e), "sdp", 8192, 18 + |t|, 18 + |t| + |ea| + 1, ea + "\\");
  }

  /** The raw description value of a message whose escaped description `e`
      is a quote-free `ea`, an escaped quote and `eb`: `ea` and the backslash. */
  lemma QuoteCutSpan(t: string, e: string, ea: string, eb: string)
    requires 4 <= |t| && '"' !in t && '"' !in ea && e == ea + "\\\"" + eb
    ensures var w, i, j := SdpText(t, e), 18 + |t|, 18 + |t| + |ea| + 1;
      var r := RawString(w, "sdp");
      r.Some? && r.value.0 == i && r.value.1 == j && j <= |w| && w[i..j] == ea + "\\"
  {
    var w, n, m := SdpText(t, e), |t|, |e|;
    SdpTextLayout(t, e);
    var k := |ea| + 1;
    assert w[18 + n..18 + n + k] == ea + "\\" by {
      assert w[18 + n..18 + n + k] == w[18 + n..18 + n + m][..k];
      assert e[..k] == ea + "\\";
    }
    assert w[18 + n + k] == '"' by {
      assert w[18 + n + k] == w[18 + n..18 + n + m][k];
    }
    SdpBodySpan(w, n, m, k);
  }

  /** A lone backslash after an escaped text is kept as it stands. */
  lemma UnescapeTrailingBackslash(a: string)
    ensures Unescape(Escape(a) + "\\") == a + "\\"
  {
    UnescapeAfterEscape(a, "\\");
    assert Unescape("\\") == "\\";
  }

  /** `p` does not occur at `j` when one of its characters disagrees. */
  lemma MismatchAt(s: string, p: string, j: nat, x: nat)
    requires x < |p| && j + x < |s| && s[j + x] != p[x]
    ensures !OccursAt(s, p, j)
  {
    if j + |p| <= |s| {
      assert s[j..j + |p|][x] == s[j + x];
    }
  }

  /** No character of a stretch that equals `part` is one `part` lacks. */
  lemma SliceAvoids(w: string, lo: nat, hi: nat, part: string, ch: char)
    requires lo <= hi <= |w| && w[lo..hi] == part && ch !in part
    ensures forall j :: lo <= j < hi ==> w[j] != ch
  {
    forall j | lo <= j < hi
      ensures w[j] != ch
    {
      assert w[j] == part[j - lo];
    }
  }

  /** A quoted pattern occurs nowhere in a stretch without quotes. */
  lemma NoKeyInQuoteFree(s: string, p: string, lo: nat, hi: nat)
    requires p != [] && p[0] == '"' && lo <= hi <= |s| && '"' !in s[lo..hi]
    ensures forall j :: lo <= j < hi ==> !OccursAt(s, p, j)
  {
    SliceAvoids(s, lo, hi, s[lo..hi], '"');
    forall j | lo <= j < hi
      ensures !OccursAt(s, p, j)
    {
      MismatchAt(s, p, j, 0);
    }
  }

  /** printf's %d writes digits and at most a minus sign. */
  lemma DecimalChars(n: int)
    ensures forall i :: 0 <= i < |IntToDecimal(n)| ==> IntToDecimal(n)[i] == '-' || IsDigit(IntToDecimal(n)[i])
  {
    if n < 0 {
      var d := NatToDecimal(-n);
      assert forall i :: 1 <= i < |IntToDecimal(n)| ==> IntToDecimal(n)[i] == d[i - 1];
    }
  }

  /** %d writes neither a quote nor a colon nor a NUL. */
  lemma DecimalPlain(n: int)
    ensures '"' !in IntToDecimal(n) && ':' !in IntToDecimal(n) && '\0' !in IntToDecimal(n)
  {
    DecimalChars(n);
  }

  /** Escaping leaves a text without quote, backslash, LF or CR as it is. */
  lemma EscapePlain(s: string)
    requires '"' !in s && '\\' !in s && '\n' !in s && '\r' !in s
    ensures Escape(s) == s
  {
    EscapeUnchanged(s);
  }

  lemma {:induction false} EscapeUnchanged(s: string)
    requires forall i :: 0 <= i < |s| ==> !NeedsEscape(s[i])
    ensures Escape(s) == s
  {
    if s != [] {
      EscapeUnchanged(s[..|s| - 1]);
    }
  }

  /** The fixed frame of an ICE message whose escaped candidate takes `e`
      characters, whose index takes `d` and whose media id takes `k`. */
  predicate IceFrame(w: string, e: nat, d: nat, k: nat) {
    |w| == 58 + e + d + k
    && w[..14] == "{\"type\":\"ice\"," && w[14..27] == "\"candidate\":\""
    && w[27 + e..45 + e] == "\",\"sdpMLineIndex\":"
    && w[45 + e + d..56 + e + d] == ",\"sdpMid\":\""
    && w[56 + e + d + k..] == "\"}"
    && '"' !in w[27..27 + e]
    && '"' !in w[45 + e..45 + e + d] && ':' !in w[45 + e..45 + e + d]
    && '"' !in w[56 + e + d..56 + e + d + k]
  }

  /** The seven parts of a concatenation, read back by position. */
  lemma PartOf7(a: string, b: string, c: string, d: string, e: string, f: string, g: string)
    ensures var w, i1, i2, i3 := a + b + c + d + e + f + g, |a|, |a| + |b|, |a| + |b| + |c|;
      var i4, i5, i6 := i3 + |d|, i3 + |d| + |e|, i3 + |d| + |e| + |f|;
      |w| == i6 + |g| && w[..i1] == a && w[i1..i2] == b && w[i2..i3] == c && w[i3..i4] == d
      && w[i4..i5] == e && w[i5..i6] == f && w[i6..] == g
  {
    var x := a + b + c + d + e;
    PartOf5(a, b, c, d, e);
    var w := x + f + g;
    assert w[..|x|] == x;
    var i3 := |a| + |b| + |c|;
    assert w[..|a|] == x[..|a|];
    assert w[|a|..|a| + |b|] == x[|a|..|a| + |b|];
    assert w[|a| + |b|..i3] == x[|a| + |b|..i3];
    assert w[i3..i3 + |d|] == x[i3..i3 + |d|];
    assert w[i3 + |d|..|x|] == x[i3 + |d|..];
  }

  /** The parts of an ICE message up to the index, by position. */
  lemma IceTextHead(c: string, n: int, m: string)
    ensures |IceWire(c, n, m)| == 58 + |Escape(c)| + |IntToDecimal(n)| + |m|
    ensures IceWire(c, n, m)[..27] == "{\"type\":\"ice\",\"candidate\":\""
    ensures IceWire(c, n, m)[27..27 + |Escape(c)|] == Escape(c)
    ensures IceWire(c, n, m)[27 + |Escape(c)|..45 + |Escape(c)|] == "\",\"sdpMLineIndex\":"
  {
    PartOf7("{\"type\":\"ice\",\"candidate\":\"", Escape(c), "\",\"sdpMLineIndex\":", IntToDecimal(n),
      ",\"sdpMid\":\"", m, "\"}");
  }

  /** The parts of an ICE message from the index on, by position. */
  lemma IceTextTail(c: string, n: int, m: string)
    ensures var e, d := |Escape(c)|, |IntToDecimal(n)|;
      IceWire(c, n, m)[45 + e..45 + e + d] == IntToDecimal(n)
      && IceWire(c, n, m)[45 + e + d..56 + e + d] == ",\"sdpMid\":\""
      && IceWire(c, n, m)[56 + e + d..56 + e + d + |m|] == m
      && IceWire(c, n, m)[56 + e + d + |m|..] == "\"}"
  {
    PartOf7("{\"type\":\"ice\",\"candidate\":\"", Escape(c), "\",\"sdpMLineIndex\":", IntToDecimal(n),
      ",\"sdpMid\":\"", m, "\"}");
  }

  /** Where each part of an ICE message sits in its text. */
  lemma IceTextLayout(c: string, n: int, m: string)
    requires '"' !in c && '"' !in m
    ensures var w, e, d, k := IceWire(c, n, m), |Escape(c)|, |IntToDecimal(n)|, |m|;
      IceFrame(w, e, d, k) && w[27..27 + e] == Escape(c) && w[45 + e..45 + e + d] == IntToDecimal(n)
      && w[56 + e + d..56 + e + d + k] == m
  {
    IceTextHead(c, n, m);
    IceTextTail(c, n, m);
    EscapeAvoids(c, '"');
    DecimalPlain(n);
    IceHeadSplit(IceWire(c, n, m));
  }

  /** An ICE message with quote-free candidate and media id is framed. */
  lemma IceFramed(c: string, n: int, m: string)
    requires '"' !in c && '"' !in m
    ensures IceFrame(IceWire(c, n, m), |Escape(c)|, |IntToDecimal(n)|, |m|)
  {
    IceTextLayout(c, n, m);
  }

  /** The head of an ICE message in two pieces, each short enough to read
      character by character. */
  lemma IceHeadSplit(w: string)
    requires |w| >= 27 && w[..27] == "{\"type\":\"ice\",\"candidate\":\""
    ensures w[..14] == "{\"type\":\"ice\"," && w[14..27] == "\"candidate\":\""
  {
    assert "{\"type\":\"ice\"," + "\"candidate\":\"" == "{\"type\":\"ice\",\"candidate\":\"";
    assert w[..14] == w[..27][..14];
    assert w[14..27] == w[..27][14..];
  }

  /** The characters of the head of an ICE message, up to the candidate. */
  lemma IceHeadChars(w: string, e: nat, d: nat, k: nat)
    requires IceFrame(w, e, d, k)
    ensures w[1..7] == "\"type\"" && w[14..25] == "\"candidate\""
    ensures w[0] == '{' && w[2] == 't' && w[7] == ':' && w[8] == '"' && w[9..12] == "ice"
    ensures w[12] == '"' && w[13] == ',' && w[15] == 'c' && w[24] == '"' && w[25] == ':' && w[26] == '"'
    ensures forall j :: 0 <= j < 26 && j != 1 && j != 6 && j != 8 && j != 12 && j != 14 && j != 24 ==> w[j] != '"'
    ensures forall j :: 0 <= j < 25 && j != 7 ==> w[j] != ':'
  {
    var h1, h2 := w[..14], w[14..27];
    assert forall j :: 0 <= j < 14 ==> w[j] == h1[j];
    assert forall j :: 14 <= j < 27 ==> w[j] == h2[j - 14];
    assert w[1..7] == h1[1..7];
    assert w[9..12] == h1[9..12];
    assert w[14..25] == h2[..11];
  }

  /** The characters between the candidate and the index. */
  lemma IceMiddleChars(w: string, e: nat, d: nat, k: nat)
    requires IceFrame(w, e, d, k)
    ensures w[29 + e..44 + e] == "\"sdpMLineIndex\"" && w[30 + e..43 + e] == "sdpMLineIndex"
    ensures w[27 + e] == '"' && w[28 + e] == ',' && w[34 + e] == 'L' && w[43 + e] == '"' && w[44 + e] == ':'
    ensures forall j :: 27 + e <= j < 44 + e ==> w[j] != ':'
  {
    var h := w[27 + e..45 + e];
    assert forall j :: 27 + e <= j < 45 + e ==> w[j] == h[j - 27 - e];
    assert w[29 + e..44 + e] == h[2..17];
    assert w[30 + e..43 + e] == h[3..16];
  }

  /** The characters after the index. */
  lemma IceTailChars(w: string, e: nat, d: nat, k: nat)
    requires IceFrame(w, e, d, k)
    ensures w[46 + e + d..54 + e + d] == "\"sdpMid\"" && w[47 + e + d..53 + e + d] == "sdpMid"
    ensures w[45 + e + d] == ',' && w[53 + e + d] == '"' && w[54 + e + d] == ':' && w[55 + e + d] == '"'
    ensures w[56 + e + d + k] == '"'
    ensures forall j :: 45 + e + d <= j < 54 + e + d ==> w[j] != ':'
  {
    var h := w[45 + e + d..56 + e + d];
    assert forall j :: 45 + e + d <= j < 56 + e + d ==> w[j] == h[j - 45 - e - d];
    assert w[46 + e + d..54 + e + d] == h[1..9];
    assert w[47 + e + d..53 + e + d] == h[2..8];
    assert w[56 + e + d + k] == w[56 + e + d + k..][0];
  }

  /** No quoted key occurs in the head of an ICE message unless it starts
      with t or i; past "candidate" it must not start with c either. */
  lemma IceHeadNoKey(w: string, e: nat, d: nat, k: nat, p: string)
    requires IceFrame(w, e, d, k) && |p| >= 2 && p[0] == '"'
    requires p[1] != 't' && p[1] != 'i' && p[1] != ':' && p[1] != ','
    ensures forall j :: 0 <= j < 14 ==> !OccursAt(w, p, j)
    ensures p[1] != 'c' ==> forall j :: 0 <= j < 26 ==> !OccursAt(w, p, j)
  {
    IceHeadChars(w, e, d, k);
    forall j | 0 <= j < 26 && (j < 14 || p[1] != 'c')
      ensures !OccursAt(w, p, j)
    {
      if j == 1 || j == 6 || j == 8 || j == 12 || j == 14 || j == 24 {
        MismatchAt(w, p, j, 1);
      } else {
        MismatchAt(w, p, j, 0);
      }
    }
  }

  /** The type field of an ICE message spans "ice". */
  lemma IceTypeSpan(w: string, e: nat, d: nat, k: nat)
    requires IceFrame(w, e, d, k)
    ensures var r := RawString(w, "type"); r.Some? && r.value.0 == 9 && r.value.1 == 12
  {
    IceHeadChars(w, e, d, k);
    var pt := KeyPattern("type");
    assert pt == "\"type\"";
    MismatchAt(w, pt, 0, 0);
    FindAt(w, pt, 0, 1);
    IndexOfAt(w, ':', 1, 7);
    IndexOfAt(w, '"', 7, 8);
    IndexOfAt(w, '"', 9, 12);
    RawStringAt(w, "type", 7, 8, 12);
  }

  /** The candidate field of an ICE message spans the escaped candidate. */
  lemma IceCandidateSpan(w: string, e: nat, d: nat, k: nat)
    requires IceFrame(w, e, d, k)
    ensures var r := RawString(w, "candidate"); r.Some? && r.value.0 == 27 && r.value.1 == 27 + e
  {
    IceHeadChars(w, e, d, k);
    IceMiddleChars(w, e, d, k);
    var pc := KeyPattern("candidate");
    assert pc == "\"candidate\"";
    IceHeadNoKey(w, e, d, k, pc);
    FindAt(w, pc, 0, 14);
    IndexOfAt(w, ':', 14, 25);
    IndexOfAt(w, '"', 25, 26);
    IndexOfAtFirst(w, '"', 27, 27 + e);
    RawStringAt(w, "candidate", 25, 26, 27 + e);
  }

  /** The first quoted "sdpMLineIndex" of an ICE message is the candidate,
      when that is the very word, and otherwise the key itself. */
  lemma IceIndexKey(w: string, e: nat, d: nat, k: nat)
    requires IceFrame(w, e, d, k)
    ensures Find(w, KeyPattern("sdpMLineIndex"), 0)
      == Some(if OccursAt(w, "\"sdpMLineIndex\"", 26) then 26 else 29 + e)
  {
    IceMiddleChars(w, e, d, k);
    var pl := KeyPattern("sdpMLineIndex");
    assert pl == "\"sdpMLineIndex\"";
    IceHeadNoKey(w, e, d, k, pl);
    if OccursAt(w, pl, 26) {
      FindAt(w, pl, 0, 26);
    } else {
      NoIndexKeyInCandidate(w, e, d, k);
      FindAt(w, pl, 0, 29 + e);
    }
  }

  lemma NoIndexKeyInCandidate(w: string, e: nat, d: nat, k: nat)
    requires IceFrame(w, e, d, k)
    ensures forall j :: 27 <= j < 29 + e ==> !OccursAt(w, "\"sdpMLineIndex\"", j)
  {
    var pl := "\"sdpMLineIndex\"";
    IceMiddleChars(w, e, d, k);
    NoKeyInQuoteFree(w, pl, 27, 27 + e);
    MismatchAt(w, pl, 27 + e, 1);
    MismatchAt(w, pl, 28 + e, 0);
  }

  /** A candidate that reads as the quoted "sdpMLineIndex" holds no colon. */
  lemma IndexKeyInCandidate(w: string, e: nat, d: nat, k: nat)
    requires IceFrame(w, e, d, k) && OccursAt(w, "\"sdpMLineIndex\"", 26)
    ensures forall j :: 26 <= j < 27 + e ==> w[j] != ':'
  {
    var pl := "\"sdpMLineIndex\"";
    var v := w[26..41];
    assert v == pl;
    assert w[40] == v[14];
    assert 27 + e <= 40;
    assert ':' !in pl;
    forall j | 26 <= j < 27 + e
      ensures w[j] != ':'
    {
      assert w[j] == v[j - 26];
    }
  }

  /** The colon read for the index is the one after "sdpMLineIndex", even
      when the candidate itself is that word. */
  lemma IceIndexColon(w: string, e: nat, d: nat, k: nat)
    requires IceFrame(w, e, d, k)
    ensures KeyColon(w, "sdpMLineIndex") == Some(44 + e)
  {
    IceIndexKey(w, e, d, k);
    IceMiddleChars(w, e, d, k);
    if OccursAt(w, "\"sdpMLineIndex\"", 26) {
      IndexKeyInCandidate(w, e, d, k);
      IndexOfAt(w, ':', 26, 44 + e);
    } else {
      IndexOfAt(w, ':', 29 + e, 44 + e);
    }
  }

  /** The quoted "sdpMid" sits right after the candidate's opening quote
      exactly when the escaped candidate is that word. */
  lemma MidKeyAt26(w: string, e: nat, d: nat, k: nat)
    requires IceFrame(w, e, d, k)
    ensures OccursAt(w, "\"sdpMid\"", 26) <==> e == 6 && w[27..33] == "sdpMid"
  {
    var p := "\"sdpMid\"";
    IceHeadChars(w, e, d, k);
    IceMiddleChars(w, e, d, k);
    if OccursAt(w, p, 26) {
      var v := w[26..34];
      assert v == p;
      assert v[1..7] == "sdpMid";
      assert w[33] == v[7];
      assert e == 6;
      SliceOfSlice(w, 26, 34, 1, 7);
    }
    if e == 6 && w[27..33] == "sdpMid" {
      assert w[26..34] == [w[26]] + w[27..33] + [w[33]];
    }
  }

  /** The quoted "sdpMid" sits right after the candidate's opening quote
      exactly when the candidate is that word. */
  lemma MidKeyInCandidate(c: string, n: int, m: string)
    requires '"' !in c && '"' !in m
    ensures OccursAt(IceWire(c, n, m), "\"sdpMid\"", 26) <==> c == "sdpMid"
  {
    IceTextLayout(c, n, m);
    MidKeyOfCandidate(IceWire(c, n, m), |Escape(c)|, |IntToDecimal(n)|, |m|, c);
  }

  lemma MidKeyOfCandidate(w: string, e: nat, d: nat, k: nat, c: string)
    requires IceFrame(w, e, d, k) && w[27..27 + e] == Escape(c)
    ensures OccursAt(w, "\"sdpMid\"", 26) <==> c == "sdpMid"
  {
    MidKeyAt26(w, e, d, k);
    if e == 6 && w[27..33] == "sdpMid" {
      EscapedWord(c, "sdpMid");
    }
    if c == "sdpMid" {
      EscapePlain(c);
    }
  }

  /** Only a text itself escapes into a text without backslash. */
  lemma EscapedWord(c: string, s: string)
    requires Escape(c) == s && '\\' !in s
    ensures c == s
  {
    UnescapeEscape(c);
    UnescapePlain(s);
  }

  /** No quoted "sdpMid" lies before the index key when the candidate is
      not that word. */
  lemma NoMidKeyBeforeIndex(w: string, e: nat, d: nat, k: nat)
    requires IceFrame(w, e, d, k) && !OccursAt(w, "\"sdpMid\"", 26)
    ensures forall j :: 0 <= j < 29 + e ==> !OccursAt(w, "\"sdpMid\"", j)
  {
    var pm := "\"sdpMid\"";
    IceMiddleChars(w, e, d, k);
    IceHeadNoKey(w, e, d, k, pm);
    NoKeyInQuoteFree(w, pm, 27, 27 + e);
    MismatchAt(w, pm, 27 + e, 1);
    MismatchAt(w, pm, 28 + e, 0);
  }

  /** No quoted "sdpMid" lies between the index key and the media id key. */
  lemma NoMidKeyAroundIndex(w: string, e: nat, d: nat, k: nat)
    requires IceFrame(w, e, d, k)
    ensures forall j :: 29 + e <= j < 46 + e + d ==> !OccursAt(w, "\"sdpMid\"", j)
  {
    NoMidKeyAtIndexKey(w, e, d, k);
    NoMidKeyInIndex(w, e, d, k);
  }

  lemma NoMidKeyAtIndexKey(w: string, e: nat, d: nat, k: nat)
    requires IceFrame(w, e, d, k)
    ensures forall j :: 29 + e <= j < 45 + e ==> !OccursAt(w, "\"sdpMid\"", j)
  {
    var pm := "\"sdpMid\"";
    IceMiddleChars(w, e, d, k);
    MismatchAt(w, pm, 29 + e, 5);
    NoKeyInQuoteFree(w, pm, 30 + e, 43 + e);
    MismatchAt(w, pm, 43 + e, 1);
    MismatchAt(w, pm, 44 + e, 0);
  }

  lemma NoMidKeyInIndex(w: string, e: nat, d: nat, k: nat)
    requires IceFrame(w, e, d, k)
    ensures forall j :: 45 + e <= j < 46 + e + d ==> !OccursAt(w, "\"sdpMid\"", j)
  {
    var pm := "\"sdpMid\"";
    IceTailChars(w, e, d, k);
    NoKeyInQuoteFree(w, pm, 45 + e, 45 + e + d);
    MismatchAt(w, pm, 45 + e + d, 0);
  }

  /** With no quoted "sdpMid" in the candidate, the first quoted "sdpMid"
      of an ICE message is its own key. */
  lemma IceMidKeyFirst(w: string, e: nat, d: nat, k: nat)
    requires IceFrame(w, e, d, k) && !OccursAt(w, "\"sdpMid\"", 26)
    ensures Find(w, KeyPattern("sdpMid"), 0) == Some(46 + e + d)
  {
    var pm := KeyPattern("sdpMid");
    assert pm == "\"sdpMid\"";
    IceTailChars(w, e, d, k);
    NoMidKeyBeforeIndex(w, e, d, k);
    NoMidKeyAroundIndex(w, e, d, k);
    FindAt(w, pm, 0, 46 + e + d);
  }

  /** With no quoted "sdpMid" in the candidate, the media id field of an ICE
      message spans the media id. */
  lemma IceMidSpan(w: string, e: nat, d: nat, k: nat)
    requires IceFrame(w, e, d, k) && !OccursAt(w, "\"sdpMid\"", 26)
    ensures var r := RawString(w, "sdpMid"); r.Some? && r.value.0 == 56 + e + d && r.value.1 == 56 + e + d + k
  {
    IceTailChars(w, e, d, k);
    IceMidKeyFirst(w, e, d, k);
    IndexOfAt(w, ':', 46 + e + d, 54 + e + d);
    IndexOfAt(w, '"', 54 + e + d, 55 + e + d);
    IndexOfAtFirst(w, '"', 56 + e + d, 56 + e + d + k);
    RawStringAt(w, "sdpMid", 54 + e + d, 55 + e + d, 56 + e + d + k);
  }

  /** The type field of an ICE message decodes to "ice". */
  lemma IceTypeDecodes(c: string, n: int, m: string)
    requires '"' !in c && '"' !in m
    ensures ExtractString(IceWire(c, n, m), "type", 16) == Some("ice")
  {
    var w, e, d, k := IceWire(c, n, m), |Escape(c)|, |IntToDecimal(n)|, |m|;
    IceTextLayout(c, n, m);
    IceHeadChars(w, e, d, k);
    IceTypeSpan(w, e, d, k);
    ExtractAtSpan(w, "type", 16, 9, 12, "ice");
    UnescapePlain("ice");
  }

  /** The candidate field of an ICE message decodes to the candidate (with
      no quote, escaped into fewer than 1024 characters). */
  lemma IceCandidateDecodes(c: string, n: int, m: string)
    requires '"' !in c && |Escape(c)| < 1024 && '"' !in m
    ensures ExtractString(IceWire(c, n, m), "candidate", 1024) == Some(c)
  {
    var w, e, d, k := IceWire(c, n, m), |Escape(c)|, |IntToDecimal(n)|, |m|;
    IceTextLayout(c, n, m);
    IceCandidateSpan(w, e, d, k);
    ExtractAtSpan(w, "candidate", 1024, 27, 27 + e, Escape(c));
    UnescapeEscape(c);
  }

  /** The index field of an ICE message reads back as the index, whatever
      the candidate. */
  lemma IceIndexDecodes(c: string, n: int, m: string)
    requires '"' !in c && '"' !in m
    ensures ExtractInt(IceWire(c, n, m), "sdpMLineIndex") == Some(n)
  {
    IceFramed(c, n, m);
    IceIndexColon(IceWire(c, n, m), |Escape(c)|, |IntToDecimal(n)|, |m|);
    IceIndexText(c, n, m);
    AtoiOfDecimal(n, ",\"sdpMid\":\"" + m + "\"}");
  }

  /** From the index on, an ICE message is the index text and the rest,
      which opens with a comma. */
  lemma IceIndexText(c: string, n: int, m: string)
    ensures IceWire(c, n, m)[45 + |Escape(c)|..] == IntToDecimal(n) + (",\"sdpMid\":\"" + m + "\"}")
  {
    var x, dn, t, z := "{\"type\":\"ice\",\"candidate\":\"" + Escape(c) + "\",\"sdpMLineIndex\":", IntToDecimal(n), ",\"sdpMid\":\"", "\"}";
    ConcatAssoc(x + dn, t, m);
    ConcatAssoc(x + dn, t + m, z);
    ConcatAssoc(x, dn, t + m + z);
    assert IceWire(c, n, m) == x + (dn + (t + m + z));
  }

  /** The media id field of an ICE message decodes to the media id (under
      32 characters, with no quote or backslash), unless the candidate is
      the word sdpMid. */
  lemma IceMidDecodes(c: string, n: int, m: string)
    requires '"' !in c && c != "sdpMid" && '"' !in m && '\\' !in m && |m| < 32
    ensures ExtractString(IceWire(c, n, m), "sdpMid", 32) == Some(m)
  {
    var w, e, d, k := IceWire(c, n, m), |Escape(c)|, |IntToDecimal(n)|, |m|;
    IceTextLayout(c, n, m);
    MidKeyInCandidate(c, n, m);
    IceMidSpan(w, e, d, k);
    ExtractAtSpan(w, "sdpMid", 32, 56 + e + d, 56 + e + d + k, m);
    UnescapePlain(m);
  }

  /** Decoding the ICE message cs_signaling_broadcast_ice formats gives back
      its type, candidate, index and media id, provided the candidate holds
      no quote, is not the word sdpMid and escapes into fewer than 1024
      characters, and the media id is under 32 characters with no quote or
      backslash. */
  lemma IceWireDecodes(c: string, n: int, m: string)
    requires '"' !in c && c != "sdpMid" && |Escape(c)| < 1024
    requires '"' !in m && '\\' !in m && |m| < 32
    ensures ExtractString(IceWire(c, n, m), "type", 16) == Some("ice")
    ensures ExtractString(IceWire(c, n, m), "candidate", 1024) == Some(c)
    ensures ExtractInt(IceWire(c, n, m), "sdpMLineIndex") == Some(n)
    ensures ExtractString(IceWire(c, n, m), "sdpMid", 32) == Some(m)
  {
    IceTypeDecodes(c, n, m);
    IceCandidateDecodes(c, n, m);
    IceIndexDecodes(c, n, m);
    IceMidDecodes(c, n, m);
  }

  /** A candidate that is the word sdpMid shadows the media id key: the
      scanner takes the candidate for the key, and the media id read back is
      the key's own name, whatever the message carries. */
  lemma IceMidShadowed(n: int, m: string)
    requires '"' !in m
    ensures ExtractString(IceWire("sdpMid", n, m), "sdpMid", 32) == Some("sdpMid")
  {
    var c := "sdpMid";
    EscapePlain(c);
    var w, e, d, k := IceWire(c, n, m), |Escape(c)|, |IntToDecimal(n)|, |m|;
    IceTextLayout(c, n, m);
    MidKeyAt26(w, e, d, k);
    ShadowedSpan(w, d, k);
    ExtractAtSpan(w, "sdpMid", 32, 53 + d, 59 + d, c);
    UnescapePlain(c);
  }

  /** In a framed ICE message whose escaped candidate is sdpMid, the media
      id value is read from the text of the real key. */
  lemma ShadowedSpan(w: string, d: nat, k: nat)
    requires IceFrame(w, 6, d, k) && w[27..33] == "sdpMid" && OccursAt(w, "\"sdpMid\"", 26)
    ensures var r := RawString(w, "sdpMid"); r.Some? && r.value.0 == 53 + d && r.value.1 == 59 + d
    ensures w[53 + d..59 + d] == "sdpMid"
  {
    ShadowedColon(w, d, k);
    IceTailChars(w, 6, d, k);
    SliceAvoids(w, 51, 51 + d, w[51..51 + d], '"');
    IndexOfAt(w, '"', 50, 52 + d);
    IndexOfAtFirst(w, '"', 53 + d, 59 + d);
    RawStringAt(w, "sdpMid", 50, 52 + d, 59 + d);
  }

  /** In a framed ICE message whose escaped candidate is sdpMid, the colon
      read for the media id is the index's. */
  lemma ShadowedColon(w: string, d: nat, k: nat)
    requires IceFrame(w, 6, d, k) && OccursAt(w, "\"sdpMid\"", 26)
    ensures KeyColon(w, "sdpMid") == Some(50)
  {
    IceMiddleChars(w, 6, d, k);
    var pm := KeyPattern("sdpMid");
    assert pm == "\"sdpMid\"";
    IceHeadNoKey(w, 6, d, k, pm);
    FindAt(w, pm, 0, 26);
    SliceAvoids(w, 26, 34, pm, ':');
    IndexOfAt(w, ':', 26, 50);
  }

  /** An ICE message holds a NUL only where its candidate or media id does. */
  lemma IceWireNoNul(c: string, n: int, m: string)
    requires '\0' !in c && '\0' !in m
    ensures '\0' !in IceWire(c, n, m)
  {
    EscapeAvoids(c, '\0');
    DecimalPlain(n);
  }
}
