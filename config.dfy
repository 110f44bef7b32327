/** The key=value loader of server/src/config.c. A file is a text read by
    fgets in chunks of at most 255 characters; each chunk is split at its
    first '=' and the value cut at its first newline; five exact keys are
    recognised. The fps value goes through atof into a float, so the model
    keeps its text. */
module Config {
  import opened CText

  /** The frame rate: the default 30.0, or the text atof was given. */
  datatype Fps = DefaultFps | FpsText(text: string)

  /** The fields of cs_config. */
  datatype Config = Config(width: int, height: int, fps: Fps, bitrateKbps: int, signalingPort: int)

  /** cs_config_defaults. */
  function Defaults(): Config {
    Config(640, 480, DefaultFps, 1500, 8080)
  }

  /** The keys apply_kv recognises, compared exactly. */
  const KEYS: seq<string> := ["width", "height", "fps", "bitrate_kbps", "signaling_port"]

  /** What one field holds, seen through its key. */
  datatype Value = Number(n: int) | Rate(fps: Fps) | NoField

  /** The field named by `key`; NoField for any text that is not a key. */
  function Setting(c: Config, key: string): Value {
    if key == "width" then Number(c.width)
    else if key == "height" then Number(c.height)
    else if key == "fps" then Rate(c.fps)
    else if key == "bitrate_kbps" then Number(c.bitrateKbps)
    else if key == "signaling_port" then Number(c.signalingPort)
    else NoField
  }

  /** The value a recognised key stores for the text `value`: atof for fps,
      atoi for the rest. */
  function Parsed(key: string, value: string): Value {
    if key == "fps" then Rate(FpsText(value)) else Number(Atoi(value))
  }

  /** A configuration is determined by its five settings. */
  lemma SettingsDetermine(c: Config, d: Config)
    requires forall k :: k in KEYS ==> Setting(c, k) == Setting(d, k)
    ensures c == d
  {
    assert Setting(c, KEYS[0]) == Setting(d, KEYS[0]);
    assert Setting(c, KEYS[1]) == Setting(d, KEYS[1]);
    assert Setting(c, KEYS[2]) == Setting(d, KEYS[2]);
    assert Setting(c, KEYS[3]) == Setting(d, KEYS[3]);
    assert Setting(c, KEYS[4]) == Setting(d, KEYS[4]);
  }

  /** apply_kv. */
  function ApplyKv(c: Config, key: string, value: string): Config {
    if key == "width" then c.(width := Atoi(value))
    else if key == "height" then c.(height := Atoi(value))
    else if key == "fps" then c.(fps := FpsText(value))
    else if key == "bitrate_kbps" then c.(bitrateKbps := Atoi(value))
    else if key == "signaling_port" then c.(signalingPort := Atoi(value))
    else c
  }

  /** apply_kv sets the field a recognised key names from the value and no
      other; any other key changes nothing. */
  lemma ApplyKvSetting(c: Config, key: string, value: string)
    ensures forall k :: k in KEYS ==> Setting(ApplyKv(c, key, value), k) == if k == key then Parsed(key, value) else Setting(c, k)
    ensures key !in KEYS ==> ApplyKv(c, key, value) == c
  {
  }

  /** The size of the line buffer handed to fgets. */
  const LINE_SIZE: nat := 256

  /** How many characters one fgets call takes from the front of `t`, the
      first `i` being taken already: it stops after a newline, after
      LINE_SIZE - 1 characters, or at the end of the text. */
  function ScanChunk(t: string, i: nat): (n: nat)
    requires i < |t| && i < LINE_SIZE - 1
    ensures i < n <= |t| && n < LINE_SIZE
    decreases |t| - i
  {
    if t[i] == '\n' || i + 1 == LINE_SIZE - 1 || i + 1 == |t| then i + 1 else ScanChunk(t, i + 1)
  }

  function ChunkLen(t: string): (n: nat)
    requires t != []
    ensures 1 <= n <= |t| && n < LINE_SIZE
  {
    ScanChunk(t, 0)
  }

  /** fgets stops after the first newline, after LINE_SIZE - 1 characters,
      or at the end of the file, whichever comes first. */
  lemma {:induction false} ScanStops(t: string, i: nat)
    requires i < |t| && i < LINE_SIZE - 1
    ensures forall j :: i <= j < ScanChunk(t, i) - 1 ==> t[j] != '\n'
    ensures t[ScanChunk(t, i) - 1] == '\n' || ScanChunk(t, i) == LINE_SIZE - 1 || ScanChunk(t, i) == |t|
    decreases |t| - i
  {
    if !(t[i] == '\n' || i + 1 == LINE_SIZE - 1 || i + 1 == |t|) {
      ScanStops(t, i + 1);
    }
  }

  lemma ChunkLenStops(t: string)
    requires t != []
    ensures forall j :: 0 <= j < ChunkLen(t) - 1 ==> t[j] != '\n'
    ensures t[ChunkLen(t) - 1] == '\n' || ChunkLen(t) == LINE_SIZE - 1 || ChunkLen(t) == |t|
  {
    ScanStops(t, 0);
  }

  /** The successive fgets reads of a whole text. */
  function Chunks(text: string): seq<string>
    decreases |text|
  {
    if text == [] then [] else
      var n := ChunkLen(text);
      [text[..n]] + Chunks(text[n..])
  }

  function Flatten(ss: seq<string>): string {
    if ss == [] then [] else ss[0] + Flatten(ss[1..])
  }

  /** The reads cover the text in order, each holding 1 to 255 characters
      and no newline before its last character. */
  lemma {:induction false} ChunksCover(text: string)
    ensures Flatten(Chunks(text)) == text
    ensures forall i :: 0 <= i < |Chunks(text)| ==> 1 <= |Chunks(text)[i]| < LINE_SIZE
    ensures forall i :: 0 <= i < |Chunks(text)| ==> '\n' !in Chunks(text)[i][..|Chunks(text)[i]| - 1]
    decreases |text|
  {
    if text != [] {
      var n := ChunkLen(text);
      ChunkLenStops(text);
      ChunksCover(text[n..]);
      assert text[..n] + text[n..] == text;
      var cs := Chunks(text);
      assert cs[1..] == Chunks(text[n..]);
      forall i | 0 <= i < |cs|
        ensures 1 <= |cs[i]| < LINE_SIZE && '\n' !in cs[i][..|cs[i]| - 1]
      {
        if i > 0 {
          assert cs[i] == Chunks(text[n..])[i - 1];
        }
      }
    }
  }

  /** A chunk parsed as a line: the text before the first '=', and the text
      after it up to the first newline. */
  datatype Entry = Entry(key: string, value: string)

  /** The text of `s` before its first `c`, or all of `s` without one. */
  function Before(s: string, c: char): (r: string)
    ensures |r| <= |s|
  {
    if s == [] || s[0] == c then [] else [s[0]] + Before(s[1..], c)
  }

  /** Before is the longest prefix free of `c`. */
  lemma {:induction false} BeforeSpec(s: string, c: char)
    ensures Before(s, c) <= s && c !in Before(s, c)
    ensures |Before(s, c)| < |s| ==> s[|Before(s, c)|] == c
  {
    if s != [] && s[0] != c {
      BeforeSpec(s[1..], c);
    }
  }

  /** A prefix free of `c` that ends at a `c` or at the end is Before. */
  lemma {:induction false} BeforeAt(s: string, c: char, k: nat)
    requires k <= |s| && (k == |s| || s[k] == c)
    requires forall j :: 0 <= j < k ==> s[j] != c
    ensures Before(s, c) == s[..k]
  {
    if k > 0 {
      BeforeAt(s[1..], c, k - 1);
      assert s[..k] == [s[0]] + s[1..][..k - 1];
    }
  }

  /** The line handling of cs_config_load on one chunk, read as a C string:
      no entry without '='; otherwise the text before the first '=', and the
      text after it up to the first newline. */
  function ParseLine(chunk: seq<char>): Option<Entry> {
    var l := CStr(chunk);
    var key := Before(l, '=');
    if |key| == |l| then None else Some(Entry(key, Before(l[|key| + 1..], '\n')))
  }

  /** A line is skipped exactly when it has no '='; otherwise the key holds
      no '=', the value no newline, and key, '=' and value spell the front
      of the line. */
  lemma ParseLineShape(chunk: seq<char>)
    ensures ParseLine(chunk).None? <==> '=' !in CStr(chunk)
    ensures ParseLine(chunk).Some? ==> var e := ParseLine(chunk).value;
      '=' !in e.key && '\n' !in e.value && e.key + "=" + e.value <= CStr(chunk)
  {
    var l := CStr(chunk);
    BeforeSpec(l, '=');
    var key := Before(l, '=');
    if |key| < |l| {
      BeforeSpec(l[|key| + 1..], '\n');
      var v := Before(l[|key| + 1..], '\n');
      assert key + "=" + v == l[..|key| + 1 + |v|];
    } else {
      assert key == l;
    }
  }

  /** One line applied: a line without '=' is skipped. */
  function ApplyLine(c: Config, chunk: seq<char>): Config {
    match ParseLine(chunk)
    case None => c
    case Some(e) => ApplyKv(c, e.key, e.value)
  }

  function ApplyAll(c: Config, chunks: seq<string>): Config
    decreases |chunks|
  {
    if chunks == [] then c else ApplyAll(ApplyLine(c, chunks[0]), chunks[1..])
  }

  /** The configuration a readable file yields. */
  function LoadText(text: string): Config {
    ApplyAll(Defaults(), Chunks(text))
  }

  /** The value the last line naming `key` gives, if any. */
  function LastValue(chunks: seq<string>, key: string): Option<string>
    decreases |chunks|
  {
    if chunks == [] then None else
      match LastValue(chunks[1..], key)
      case Some(v) => Some(v)
      case None =>
        match ParseLine(chunks[0])
        case Some(e) => if e.key == key then Some(e.value) else None
        case None => None
  }

  /** Last one wins: each recognised field ends up with the value of the
      last line naming its key, or keeps what it had when no line does. */
  lemma {:induction false} LastOneWins(c: Config, chunks: seq<string>, key: string)
    requires key in KEYS
    ensures Setting(ApplyAll(c, chunks), key)
      == match LastValue(chunks, key) case Some(v) => Parsed(key, v) case None => Setting(c, key)
    decreases |chunks|
  {
    if chunks != [] {
      LastOneWins(ApplyLine(c, chunks[0]), chunks[1..], key);
      if ParseLine(chunks[0]).Some? {
        var e := ParseLine(chunks[0]).value;
        ApplyKvSetting(c, e.key, e.value);
      }
    }
  }

  /** A file with no line naming any key leaves the defaults in place. */
  lemma {:induction false} NoKeysNoChange(c: Config, chunks: seq<string>)
    requires forall k :: k in KEYS ==> LastValue(chunks, k).None?
    ensures ApplyAll(c, chunks) == c
  {
    forall k | k in KEYS
      ensures Setting(ApplyAll(c, chunks), k) == Setting(c, k)
    {
      LastOneWins(c, chunks, k);
    }
    SettingsDetermine(ApplyAll(c, chunks), c);
  }

  /** The caller's cs_config, written through a pointer. */
  class ConfigRecord {
    var config: Config

    constructor (config: Config)
      ensures this.config == config
    {
      this.config := config;
    }
  }

  /** fgets into `line`: the next chunk of `text` from `pos`, then a NUL. */
  method Fgets(text: string, pos: nat, line: array<char>) returns (n: nat)
    requires pos < |text| && line.Length == LINE_SIZE
    modifies line
    ensures n == ChunkLen(text[pos..]) && pos + n <= |text|
    ensures line[..n] == text[pos..pos + n] && line[n] == '\0'
  {
    ghost var t := text[pos..];
    n := 0;
    var done := false;
    while !done
      invariant n < LINE_SIZE && pos + n <= |text|
      invariant line[..n] == t[..n]
      invariant done ==> n == ChunkLen(t)
      invariant !done ==> n < |t| && n < LINE_SIZE - 1 && ScanChunk(t, n) == ChunkLen(t)
      decreases LINE_SIZE - n, if done then 0 else 1
    {
      line[n] := text[pos + n];
      done := text[pos + n] == '\n' || n + 1 == LINE_SIZE - 1 || pos + n + 1 == |text|;
      n := n + 1;
    }
    line[n] := '\0';
    assert line[..n] == t[..n];
  }

  /** A NUL at `k` with none before ends the C string there. */
  lemma CStrAtNul(buf: seq<char>, k: nat)
    requires k < |buf| && buf[k] == '\0' && '\0' !in buf[..k]
    ensures CStr(buf) == buf[..k]
  {
    var r := CStr(buf);
    assert forall x :: 0 <= x < k ==> buf[x] == buf[..k][x];

  }

  /** A NUL at `k` bounds the C string: it is the C string of the prefix. */
  lemma CStrCut(buf: seq<char>, k: nat)
    requires k < |buf| && buf[k] == '\0'
    ensures CStr(buf) == CStr(buf[..k])
  {
    var r := CStr(buf[..k]);
    if '\0' in buf[..k] {
      CStrAtNul(buf, |r|);
    } else {
      CStrAtNul(buf, k);
      CStrPlain(buf[..k]);
    }
  }

  /** Overwriting a character of the C string with NUL splits it in two. */
  lemma NulInside(buf: seq<char>, k: nat)
    requires '\0' in buf && k < |CStr(buf)|
    ensures CStr(buf[k := '\0']) == CStr(buf)[..k]
    ensures CStr(buf[k := '\0'][k + 1..]) == CStr(buf)[k + 1..]
  {
    var l := CStr(buf);
    var b := buf[k := '\0'];
    assert b[..k] == l[..k];
    CStrAtNul(b, k);
    assert b[k + 1..][..|l| - (k + 1)] == l[k + 1..];
    CStrAtNul(b[k + 1..], |l| - (k + 1));
  }

  /** strchr over the C string that starts at `from`. */
  method Strchr(a: array<char>, from: nat, c: char) returns (r: Option<nat>)
    requires from < a.Length && '\0' in a[from..] && c != '\0'
    ensures var s := CStr(a[from..]);
      if |Before(s, c)| == |s| then r.None? else r == Some(from + |Before(s, c)|)
  {
    ghost var s := CStr(a[from..]);
    ghost var end := from + |s|;
    assert a[end] == a[from..][|s|] == '\0';
    assert forall x :: from <= x < end ==> a[x] == s[x - from] by {
      assert forall x :: from <= x < end ==> a[x] == a[from..][x - from];
    }
    var i := from;
    while a[i] != '\0' && a[i] != c
      invariant from <= i <= end
      invariant forall x :: from <= x < i ==> a[x] != c
      decreases end - i
    {
      i := i + 1;
    }
    BeforeAt(s, c, i - from);
    r := if a[i] == c then Some(i) else None;
  }

  /** One pass of the loop body of cs_config_load over the chunk in `line`:
      '=' and the first newline after it are overwritten with NUL, and the
      two C strings that remain are applied as key and value to the record,
      whose field writes are a value update here. */
  method ApplyBuffer(c: Config, line: array<char>, ghost chunk: string) returns (d: Config)
    requires line.Length == LINE_SIZE && |chunk| < LINE_SIZE
    requires line[..|chunk|] == chunk && line[|chunk|] == '\0'
    modifies line
    ensures d == ApplyLine(c, chunk)
  {
    ghost var l := CStr(chunk);
    assert CStr(line[..]) == l by {
      CStrCut(line[..], |chunk|);
    }
    assert line[..] == line[0..];
    var eq := Strchr(line, 0, '=');
    if eq.None? {
      assert ParseLine(chunk).None?;
      return c;
    }
    var i := eq.value;
    BeforeSpec(l, '=');
    ghost var b0 := line[..];
    line[i] := '\0';
    NulInside(b0, i);
    assert line[..] == b0[i := '\0'];
    assert line[..][i + 1..] == line[i + 1..];
    CutValue(line, i);
    ghost var e := Entry(l[..i], Before(l[i + 1..], '\n'));
    ParseLineAt(chunk, i);
    assert CStr(line[..]) == e.key && CStr(line[i + 1..]) == e.value;
    d := ApplyKv(c, CStr(line[..]), CStr(line[i + 1..]));
  }

  /** The entry of a line whose first '=' is at `i`. */
  lemma ParseLineAt(chunk: seq<char>, i: nat)
    requires i == |Before(CStr(chunk), '=')| < |CStr(chunk)|
    ensures ParseLine(chunk) == Some(Entry(CStr(chunk)[..i], Before(CStr(chunk)[i + 1..], '\n')))
  {
    var l := CStr(chunk);
    var key := Before(l, '=');
    BeforeSpec(l, '=');
    assert key == l[..i];
    assert ParseLine(chunk) == Some(Entry(key, Before(l[|key| + 1..], '\n')));
  }

  /** The second strchr of the loop body: the value, the C string after the
      NUL at `i`, loses everything from its first newline on. */
  method CutValue(line: array<char>, i: nat)
    requires i < line.Length && line[i] == '\0' && '\0' !in line[..i] && '\0' in line[i + 1..]
    modifies line
    ensures CStr(line[..]) == old(line[..i])
    ensures CStr(line[i + 1..]) == Before(old(CStr(line[i + 1..])), '\n')
  {
    CStrAtNul(line[..], i);
    var nl := Strchr(line, i + 1, '\n');
    BeforeSpec(CStr(line[i + 1..]), '\n');
    if nl.Some? {
      ghost var b1 := line[..];
      assert b1[i + 1..] == line[i + 1..];
      line[nl.value] := '\0';
      ApplySecondNul(b1, line[..], i, nl.value - (i + 1));
      assert line[..][i + 1..] == line[i + 1..];
    }
  }

  /** The newline cut leaves the key and shortens the value. */
  lemma ApplySecondNul(b1: seq<char>, b2: seq<char>, i: nat, j: nat)
    requires i < |b1| && b1[i] == '\0' && '\0' !in b1[..i]
    requires '\0' in b1[i + 1..] && j < |CStr(b1[i + 1..])|
    requires b2 == b1[i + 1 + j := '\0']
    ensures CStr(b2) == b1[..i]
    ensures CStr(b2[i + 1..]) == CStr(b1[i + 1..])[..j]
  {
    assert b2[..i] == b1[..i];
    CStrAtNul(b2, i);
    assert b2[i + 1..] == b1[i + 1..][j := '\0'];
    NulInside(b1[i + 1..], j);
  }

  /** One fgets read peels the first chunk off the rest of the text. */
  lemma ChunksStep(c: Config, text: string, pos: nat, n: nat)
    requires pos < |text| && n == ChunkLen(text[pos..])
    ensures pos + n <= |text|
    ensures ApplyAll(c, Chunks(text[pos..])) == ApplyAll(ApplyLine(c, text[pos..pos + n]), Chunks(text[pos + n..]))
  {
    assert text[pos..][..n] == text[pos..pos + n];
    assert text[pos..][n..] == text[pos + n..];
  }

  /** One turn of the fgets loop: read a chunk into `line`, then apply it;
      what remains to be applied is the rest of the text. */
  method ReadLine(c: Config, text: string, pos: nat, line: array<char>) returns (n: nat, d: Config)
    requires pos < |text| && line.Length == LINE_SIZE
    modifies line
    ensures 0 < n && pos + n <= |text|
    ensures ApplyAll(d, Chunks(text[pos + n..])) == ApplyAll(c, Chunks(text[pos..]))
  {
    n := Fgets(text, pos, line);
    d := ApplyBuffer(c, line, text[pos..pos + n]);
    ChunksStep(c, text, pos, n);
  }

  /** The fgets loop of cs_config_load over an opened file holding `text`. */
  method ReadLines(c: Config, text: string) returns (d: Config)
    ensures d == ApplyAll(c, Chunks(text))
  {
    var line := new char[LINE_SIZE];
    var pos := 0;
    d := c;
    assert text[pos..] == text;
    while pos < |text|
      invariant pos <= |text|
      invariant ApplyAll(d, Chunks(text[pos..])) == ApplyAll(c, Chunks(text))
      decreases |text| - pos
    {
      var n;
      n, d := ReadLine(d, text, pos, line);
      pos := pos + n;
    }
    NothingLeft(d, text, pos);
  }

  /** At the end of the text no chunk is left to apply. */
  lemma NothingLeft(c: Config, text: string, pos: nat)
    requires pos == |text|
    ensures ApplyAll(c, Chunks(text[pos..])) == c
  {
    assert text[pos..] == [];
  }

  /** cs_config_load over a file system given as the texts of the paths it
      can open: -1 without a record; otherwise the defaults first, then 0
      without a path, -1 for a path that cannot be opened, and 0 after
      applying every line of a readable file. */
  method Load(target: ConfigRecord?, path: Option<string>, files: map<string, string>) returns (rc: int)
    modifies target
    ensures target == null ==> rc == -1
    ensures target != null && path.None? ==> rc == 0 && target.config == Defaults()
    ensures target != null && path.Some? && path.value !in files ==> rc == -1 && target.config == Defaults()
    ensures target != null && path.Some? && path.value in files
      ==> rc == 0 && target.config == LoadText(files[path.value])
  {
    if target == null {
      return -1;
    }
    target.config := Defaults();
    if path.None? {
      return 0;
    }
    if path.value !in files {
      return -1;
    }
    target.config := ReadLines(target.config, files[path.value]);
    rc := 0;
  }
}
