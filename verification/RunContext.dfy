/**
 The run context a client sends: its JSON text, the 8192-byte budget, and why dropping `env` is always enough
 to meet it.
 */
module RunContext {
  import opened Options
  import opened ContextLayers
  import Settle
  import Text
  import UserinfoMask
  import Utf8

  const CONTEXT_MAX_BYTES: nat := 8192
  const ENV_VALUE_MAX: nat := 200

  const LOCKFILE_NAMES: seq<string> := [
    "poetry.lock", "Pipfile.lock", "uv.lock", "pdm.lock", "requirements.txt", "requirements-dev.txt",
    "package-lock.json", "yarn.lock", "pnpm-lock.yaml", "npm-shrinkwrap.json",
    "pom.xml", "build.gradle", "build.gradle.kts", "gradle.lockfile",
    "go.sum", "Cargo.lock", "Gemfile.lock", "composer.lock"
  ]

  const ENV_ALLOWLIST: seq<string> := [
    "TZ", "LANG", "LC_ALL", "PYTHONHASHSEED", "NODE_ENV", "ImageOS", "ImageVersion", "RUNNER_OS", "RUNNER_ARCH",
    "CI_RUNNER_VERSION", "CI_SERVER_VERSION", "BUILD_IMAGE"
  ]

  /** The context object; a section that is `None` is absent, and the sections are in this order. */
  datatype Ctx = Ctx(runtime: Option<Dict>, fingerprints: Option<Dict>, images: Option<Dict>, env: Option<Dict>)

  // ----- json.dumps with separators (",", ":") and ensure_ascii -----

  function HexDigit(n: nat): char
    requires n < 16
  {
    if n < 10 then ('0' as int + n) as char else ('a' as int + n - 10) as char
  }

  function Unit(n: nat): string
    requires n < 0x10000
  {
    "\\u" + [HexDigit(n / 4096), HexDigit(n / 256 % 16), HexDigit(n / 16 % 16), HexDigit(n % 16)]
  }

  /** A character outside the Basic Multilingual Plane takes two escapes, its surrogate pair. */
  function EscapeChar(c: char): string {
    var n := c as int;
    if c == '"' then "\\\""
    else if c == '\\' then "\\\\"
    else if c == '\n' then "\\n"
    else if c == '\r' then "\\r"
    else if c == '\t' then "\\t"
    else if n == 8 then "\\b"
    else if n == 12 then "\\f"
    else if 32 <= n < 127 then [c]
    else if n < 0x10000 then Unit(n)
    else Unit(0xD800 + (n - 0x10000) / 1024) + Unit(0xDC00 + (n - 0x10000) % 1024)
  }

  function Escape(s: string): string {
    if s == "" then "" else EscapeChar(s[0]) + Escape(s[1..])
  }

  function Quote(s: string): string {
    "\"" + Escape(s) + "\""
  }

  function Item(p: Pair): string {
    Quote(p.0) + ":" + Quote(p.1)
  }

  function Listed(d: Dict): string {
    if d == [] then "" else Item(d[0]) + (if |d| == 1 then "" else ",") + Listed(d[1..])
  }

  function Section(name: string, d: Option<Dict>): string {
    if d.None? then "" else ",\"" + name + "\":{" + Listed(d.value) + "}"
  }

  const VERSION_FIELD: string := "{\"v\":1"

  function Sections(ctx: Ctx): string {
    Section("runtime", ctx.runtime) + Section("dependency_fingerprints", ctx.fingerprints)
    + Section("image_digests", ctx.images) + Section("env", ctx.env)
  }

  function Render(ctx: Ctx): string {
    VERSION_FIELD + Sections(ctx) + "}"
  }

  function Size(ctx: Ctx): nat {
    Utf8.Size(Render(ctx))
  }

  function HexValue(c: char): nat {
    if '0' <= c <= '9' then c as int - '0' as int
    else if 'a' <= c <= 'f' then c as int - 'a' as int + 10
    else 0
  }

  /** The number of a four-digit escape whose digits start at `s[2]`. */
  function UnitValue(s: string): nat
    requires |s| >= 6
  {
    HexValue(s[2]) * 4096 + HexValue(s[3]) * 256 + HexValue(s[4]) * 16 + HexValue(s[5])
  }

  predicate Scalar(n: int) {
    0 <= n < 0xD800 || 0xE000 <= n < 0x11_0000
  }

  /** What a JSON reader makes of the text of a string: each escape, or surrogate pair of escapes, is one
      character. */
  function Unescape(s: string): string
    decreases |s|
  {
    if s == "" then ""
    else if s[0] != '\\' || |s| < 2 then [s[0]] + Unescape(s[1..])
    else if s[1] != 'u' || |s| < 6 then
      var c := match s[1] case 'n' => '\n' case 'r' => '\r' case 't' => '\t'
                          case 'b' => 8 as char case 'f' => 12 as char case other => other;
      [c] + Unescape(s[2..])
    else
      var n := UnitValue(s);
      if Scalar(n) then [n as char] + Unescape(s[6..])
      else
        var pair := if |s| >= 12 then 0x10000 + (n - 0xD800) * 1024 + (UnitValue(s[6..]) - 0xDC00) else -1;
        if Scalar(pair) then [pair as char] + Unescape(s[12..]) else [s[0]] + Unescape(s[1..])
  }

  lemma HexRoundTrip(d: nat)
    requires d < 16
    ensures HexValue(HexDigit(d)) == d
  {
  }

  lemma HexDigits(n: nat)
    requires n < 0x10000
    ensures n / 4096 < 16 && n == n / 4096 * 4096 + n / 256 % 16 * 256 + n / 16 % 16 * 16 + n % 16
  {
    var a := n / 16;
    var b := a / 16;
    assert a == n / 16 && b == n / 256 && b / 16 == n / 4096;
    assert n == a * 16 + n % 16 && a == b * 16 + a % 16 && b == b / 16 * 16 + b % 16;
  }

  lemma UnitReads(n: nat, rest: string)
    requires n < 0x10000
    ensures var s := Unit(n) + rest;
            |Unit(n)| == 6 && s[0] == '\\' && s[1] == 'u' && UnitValue(s) == n && s[6..] == rest
  {
    HexDigits(n);
    HexRoundTrip(n / 4096);
    HexRoundTrip(n / 256 % 16);
    HexRoundTrip(n / 16 % 16);
    HexRoundTrip(n % 16);
    hide HexValue, HexDigit;
    var digits := [HexDigit(n / 4096), HexDigit(n / 256 % 16), HexDigit(n / 16 % 16), HexDigit(n % 16)];
    var s := Unit(n) + rest;
    assert s[2] == digits[0] && s[3] == digits[1] && s[4] == digits[2] && s[5] == digits[3];
  }

  lemma UnescapeUnit(n: nat, rest: string)
    requires n < 0x10000 && Scalar(n)
    ensures Unescape(Unit(n) + rest) == [n as char] + Unescape(rest)
  {
    UnitReads(n, rest);
    hide Unit, UnitValue;
  }

  lemma EscapedPair(c: char)
    requires c as int >= 0x10000
    ensures var n := c as int - 0x10000;
            EscapeChar(c) == Unit(0xD800 + n / 1024) + Unit(0xDC00 + n % 1024)
  {
    hide Unit;
  }

  lemma UnescapePair(c: char, rest: string)
    requires c as int >= 0x10000
    ensures Unescape(EscapeChar(c) + rest) == [c] + Unescape(rest)
  {
    hide Unit, UnitValue, EscapeChar, Unescape;
    var n := c as int - 0x10000;
    var hi, lo := 0xD800 + n / 1024, 0xDC00 + n % 1024;
    EscapedPair(c);
    UnitReads(hi, Unit(lo) + rest);
    UnitReads(lo, rest);
    var s := Unit(hi) + (Unit(lo) + rest);
    assert EscapeChar(c) + rest == s && s[12..] == s[6..][6..] == rest;
    SurrogatesRead(s, hi, lo, c);
  }

  /** Two escapes that make a surrogate pair are one character. */
  lemma SurrogatesRead(s: string, hi: nat, lo: nat, c: char)
    requires |s| >= 12 && s[0] == '\\' && s[1] == 'u' && UnitValue(s) == hi && UnitValue(s[6..]) == lo
    requires 0xD800 <= hi < 0xE000 && 0x10000 + (hi - 0xD800) * 1024 + (lo - 0xDC00) == c as int
    ensures Unescape(s) == [c] + Unescape(s[12..])
  {
    hide UnitValue;
  }

  lemma UnescapeOne(c: char, rest: string)
    ensures Unescape(EscapeChar(c) + rest) == [c] + Unescape(rest)
  {
    if c as int >= 0x10000 {
      UnescapePair(c, rest);
    } else if |EscapeChar(c)| > 2 {
      assert EscapeChar(c) == Unit(c as int);
      UnescapeUnit(c as int, rest);
      hide Unit, Unescape, EscapeChar;
    } else {
      UnescapeShort(c, rest);
      hide Unescape, EscapeChar;
    }
  }

  lemma UnescapePlain(c: char, rest: string)
    requires |EscapeChar(c)| == 1
    ensures Unescape(EscapeChar(c) + rest) == [c] + Unescape(rest)
  {
    UnitLength();
    var s := EscapeChar(c) + rest;
    assert EscapeChar(c) == [c] && c != '\\' by {
      hide Unit;
    }
    hide Unit, UnitValue, EscapeChar;
    assert s[0] == c && s[1..] == rest;
  }

  lemma UnitLength()
    ensures forall n: nat :: n < 0x10000 ==> |Unit(n)| == 6
  {
  }

  /** A backslash and the letter, quote or backslash that stands for the character. */
  lemma ShortEscape(c: char)
    requires |EscapeChar(c)| == 2
    ensures var e := EscapeChar(c)[1];
            && EscapeChar(c) == ['\\', e] && e != 'u'
            && c == match e case 'n' => '\n' case 'r' => '\r' case 't' => '\t'
                            case 'b' => 8 as char case 'f' => 12 as char case other => other
  {
    UnitLength();
    hide Unit;
  }

  lemma UnescapeLetter(c: char, rest: string)
    requires |EscapeChar(c)| == 2
    ensures Unescape(EscapeChar(c) + rest) == [c] + Unescape(rest)
  {
    ShortEscape(c);
    var s := EscapeChar(c) + rest;
    hide EscapeChar, Unit, UnitValue;
    assert s[0] == '\\' && s[1] == EscapeChar(c)[1] && s[2..] == rest;
  }

  lemma UnescapeShort(c: char, rest: string)
    requires |EscapeChar(c)| <= 2
    ensures Unescape(EscapeChar(c) + rest) == [c] + Unescape(rest)
  {
    if |EscapeChar(c)| == 1 {
      UnescapePlain(c, rest);
    } else {
      UnescapeLetter(c, rest);
    }
    hide EscapeChar, Unescape;
  }

  /** Reading an escaped string back gives the string: nothing is lost or confused by escaping. */
  lemma {:induction false} UnescapeEscape(s: string)
    ensures Unescape(Escape(s)) == s
  {
    if s != "" {
      UnescapeOne(s[0], Escape(s[1..]));
      UnescapeEscape(s[1..]);
      hide Unescape, EscapeChar;
    }
  }

  predicate Ascii(s: string) {
    forall i :: 0 <= i < |s| ==> s[i] as int < 128
  }

  lemma {:induction false} AsciiSize(s: string)
    requires Ascii(s)
    ensures Utf8.Size(s) == |s|
  {
    if s != "" {
      AsciiSize(s[1..]);
    }
  }

  lemma EscapeCharAscii(c: char)
    ensures Ascii(EscapeChar(c))
  {
    var n := c as int;
    if n >= 0x10000 {
      UnitAscii(0xD800 + (n - 0x10000) / 1024);
      UnitAscii(0xDC00 + (n - 0x10000) % 1024);
    } else {
      UnitAscii(n);
    }
    hide Unit;
  }

  lemma UnitAscii(n: nat)
    requires n < 0x10000
    ensures Ascii(Unit(n))
  {
  }

  lemma {:induction false} EscapeAscii(s: string)
    ensures Ascii(Escape(s))
  {
    if s != "" {
      EscapeAscii(s[1..]);
      EscapeCharAscii(s[0]);
      hide EscapeChar;
    }
  }

  lemma ItemAscii(p: Pair)
    ensures Ascii(Item(p))
  {
    EscapeAscii(p.0);
    EscapeAscii(p.1);
    hide Escape;
  }

  lemma {:induction false} ListedAscii(d: Dict)
    ensures Ascii(Listed(d))
  {
    if d != [] {
      ItemAscii(d[0]);
      ListedAscii(d[1..]);
      hide Item;
    }
  }

  lemma SectionAscii(name: string, d: Option<Dict>)
    requires Ascii(name)
    ensures Ascii(Section(name, d))
  {
    if d.Some? {
      ListedAscii(d.value);
      hide Listed;
      var head := ",\"" + name + "\":{";
      assert Ascii(head);
      assert Section(name, d) == head + Listed(d.value) + "}";
    }
  }

  lemma AsciiConcat(a: string, b: string)
    requires Ascii(a) && Ascii(b)
    ensures Ascii(a + b)
  {
  }

  /** The bytes of one character of a JSON text: two for a quote, a backslash and the five control characters that
      have a letter, one for any other printable ASCII character, six for a `\u` escape and twelve for a pair. */
  function CharBytes(c: char): nat {
    var n := c as int;
    if n in {0x22, 0x5C, 0x08, 0x09, 0x0A, 0x0C, 0x0D} then 2
    else if 0x20 <= n <= 0x7E then 1
    else if n <= 0xFFFF then 6
    else 12
  }

  function TextBytes(s: string): nat {
    if s == "" then 0 else CharBytes(s[0]) + TextBytes(s[1..])
  }

  /** Entries with their quotes and colons, and the commas between them. */
  function DictBytes(d: Dict): nat {
    if d == [] then 0
    else TextBytes(d[0].0) + TextBytes(d[0].1) + 5 + (if |d| == 1 then 0 else 1) + DictBytes(d[1..])
  }

  function SectionBytes(name: string, d: Option<Dict>): nat {
    if d.None? then 0 else |name| + 6 + DictBytes(d.value)
  }

  lemma {:induction false} EscapeBytes(s: string)
    ensures |Escape(s)| == TextBytes(s)
  {
    if s != "" {
      EscapeBytes(s[1..]);
    }
  }

  lemma {:induction false} ListedBytes(d: Dict)
    ensures |Listed(d)| == DictBytes(d)
  {
    if d != [] {
      ListedBytes(d[1..]);
      EscapeBytes(d[0].0);
      EscapeBytes(d[0].1);
      hide Escape, TextBytes;
    }
  }

  /** The budget counts `{"v":1}` and every section that is there: its name, its entries and what JSON puts around
      them, each character as JSON writes it in ASCII. */
  lemma SizeCounts(ctx: Ctx)
    ensures Size(ctx)
         == 7 + SectionBytes("runtime", ctx.runtime) + SectionBytes("dependency_fingerprints", ctx.fingerprints)
            + SectionBytes("image_digests", ctx.images) + SectionBytes("env", ctx.env)
  {
    SizeIsLength(ctx);
    SectionCounts("runtime", ctx.runtime);
    SectionCounts("dependency_fingerprints", ctx.fingerprints);
    SectionCounts("image_digests", ctx.images);
    SectionCounts("env", ctx.env);
    assert |VERSION_FIELD| == 6;
    hide Section, SectionBytes, Size;
  }

  lemma SectionCounts(name: string, d: Option<Dict>)
    ensures |Section(name, d)| == SectionBytes(name, d)
  {
    if d.Some? {
      ListedBytes(d.value);
    }
    hide Listed, DictBytes;
  }

  lemma NamesAscii()
    ensures Ascii("runtime") && Ascii("dependency_fingerprints") && Ascii("image_digests") && Ascii("env")
  {
  }

  lemma SectionsAscii(ctx: Ctx)
    ensures Ascii(Sections(ctx))
  {
    NamesAscii();
    hide Section, Ascii;
    SectionAscii("runtime", ctx.runtime);
    SectionAscii("dependency_fingerprints", ctx.fingerprints);
    SectionAscii("image_digests", ctx.images);
    SectionAscii("env", ctx.env);
    var runtime, fingerprints := Section("runtime", ctx.runtime), Section("dependency_fingerprints", ctx.fingerprints);
    var images, env := Section("image_digests", ctx.images), Section("env", ctx.env);
    AsciiConcat(runtime, fingerprints);
    AsciiConcat(runtime + fingerprints, images);
    AsciiConcat(runtime + fingerprints + images, env);
  }

  /** Everything is escaped to ASCII, so the bytes sent are as many as the characters rendered. */
  lemma SizeIsLength(ctx: Ctx)
    ensures Size(ctx) == |Render(ctx)|
  {
    SectionsAscii(ctx);
    assert Ascii(VERSION_FIELD) && Ascii("}");
    hide Sections, Ascii;
    AsciiConcat(VERSION_FIELD, Sections(ctx));
    AsciiConcat(VERSION_FIELD + Sections(ctx), "}");
    AsciiSize(Render(ctx));
  }

  // ----- How long the sections can be -----

  predicate PlainChar(c: char) {
    32 <= c as int < 127 && c != '"' && c != '\\'
  }

  /** No longer than `n`, and nothing in it needs escaping. */
  predicate Plain(s: string, n: nat) {
    |s| <= n && Every(s, PlainChar)
  }

  lemma {:induction false} PlainEscape(s: string)
    requires Every(s, PlainChar)
    ensures Escape(s) == s
  {
    if s != "" {
      PlainEscape(s[1..]);
    }
  }

  lemma ItemBound(p: Pair, key: nat, value: nat)
    requires Plain(p.0, key) && Plain(p.1, value)
    ensures |Item(p)| <= key + value + 5
  {
    PlainEscape(p.0);
    PlainEscape(p.1);
    hide Escape;
  }

  function Room(entries: nat, each: nat): nat {
    entries * each
  }

  lemma OneMore(entries: nat, each: nat)
    requires entries > 0
    ensures Room(entries, each) == each + Room(entries - 1, each)
  {
  }

  lemma ListedFirst(d: Dict)
    ensures d == [] ==> Listed(d) == ""
    ensures d != [] ==> |Listed(d)| <= |Item(d[0])| + 1 + |Listed(d[1..])|
  {
    hide Item;
  }

  lemma {:induction false} ListedBound(d: Dict, key: nat, value: nat)
    requires forall p :: p in d ==> Plain(p.0, key) && Plain(p.1, value)
    ensures |Listed(d)| <= Room(|d|, key + value + 6)
  {
    hide Plain, Item, Room, Listed;
    if d != [] {
      assert d[0] in d && forall p :: p in d[1..] ==> p in d;
      ItemBound(d[0], key, value);
      ListedBound(d[1..], key, value);
      ListedFirst(d);
      OneMore(|d|, key + value + 6);
    } else {
      assert Listed(d) == "" by {
        ListedFirst(d);
      }
    }
  }

  ghost predicate GoodRuntime(d: Dict) {
    |d| <= RUNTIME_MAX && forall p :: p in d ==> RuntimeKey(p.0) && Version(p.1)
  }

  ghost predicate GoodFingerprints(d: Dict) {
    |d| <= |LOCKFILE_NAMES| && forall p :: p in d ==> p.0 in LOCKFILE_NAMES && Hash(p.1)
  }

  ghost predicate GoodImages(d: Dict) {
    |d| <= IMAGES_MAX && forall p :: p in d ==> ImageName(p.0) && Digest(p.1)
  }

  /** What the merges guarantee of the sections; `env` may hold anything. */
  ghost predicate WellFormed(ctx: Ctx) {
    && (ctx.runtime.Some? ==> GoodRuntime(ctx.runtime.value))
    && (ctx.fingerprints.Some? ==> GoodFingerprints(ctx.fingerprints.value))
    && (ctx.images.Some? ==> GoodImages(ctx.images.value))
  }

  lemma RuntimePlain(p: Pair)
    requires RuntimeKey(p.0) && Version(p.1)
    ensures Plain(p.0, 32) && Plain(p.1, 64)
  {
  }

  lemma LockfilePlain(name: string)
    requires name in LOCKFILE_NAMES
    ensures Plain(name, 20)
  {
    assert Plain("poetry.lock", 20) && Plain("Pipfile.lock", 20) && Plain("uv.lock", 20) && Plain("pdm.lock", 20);
    PythonRequirementsPlain();
    NodeLockfilesPlain();
    JavaLockfilesPlain();
    assert Plain("go.sum", 20) && Plain("Cargo.lock", 20) && Plain("Gemfile.lock", 20) && Plain("composer.lock", 20);
    hide Plain;
  }

  lemma PythonRequirementsPlain()
    ensures Plain("requirements.txt", 20) && Plain("requirements-dev.txt", 20)
  {
  }

  lemma NodeLockfilesPlain()
    ensures Plain("package-lock.json", 20) && Plain("yarn.lock", 20) && Plain("pnpm-lock.yaml", 20)
    ensures Plain("npm-shrinkwrap.json", 20)
  {
  }

  lemma JavaLockfilesPlain()
    ensures Plain("pom.xml", 20) && Plain("build.gradle", 20) && Plain("build.gradle.kts", 20)
    ensures Plain("gradle.lockfile", 20)
  {
  }

  lemma ImagePlain(p: Pair)
    requires ImageName(p.0) && Digest(p.1)
    ensures Plain(p.0, 329) && Plain(p.1, 71)
  {
    var name := p.0;
    if ':' in name {
      var colon := Text.IndexOf(name, ':');
      assert forall i :: colon < i < |name| ==> name[i] == name[colon + 1..][i - colon - 1];
      assert forall i :: 0 <= i < colon ==> name[i] == name[..colon][i];
    }
    assert forall i :: 7 <= i < |p.1| ==> p.1[i] == p.1[7..][i - 7];
    assert forall i :: 0 <= i < 7 ==> p.1[i] == "sha256:"[i];
  }

  lemma RuntimeSize(d: Dict)
    requires GoodRuntime(d)
    ensures |Section("runtime", Some(d))| <= 1645
  {
    forall p | p in d ensures Plain(p.0, 32) && Plain(p.1, 64) {
      RuntimePlain(p);
    }
    hide Listed, RuntimeKey, Version, Plain;
    ListedBound(d, 32, 64);
    assert |"runtime"| == 7;
  }

  lemma LockfilesPlain(d: Dict)
    requires GoodFingerprints(d)
    ensures |d| <= 18 && forall p :: p in d ==> Plain(p.0, 20) && Plain(p.1, 64)
  {
    forall p | p in d ensures Plain(p.0, 20) && Plain(p.1, 64) {
      LockfilePlain(p.0);
    }
  }

  lemma FingerprintsSize(d: Dict)
    requires |d| <= 18 && forall p :: p in d ==> Plain(p.0, 20) && Plain(p.1, 64)
    ensures |Section("dependency_fingerprints", Some(d))| <= 1649
  {
    hide Listed, Plain;
    ListedBound(d, 20, 64);
    assert |"dependency_fingerprints"| == 23;
  }

  lemma ImagesSize(d: Dict)
    requires GoodImages(d)
    ensures |Section("image_digests", Some(d))| <= 3267
  {
    forall p | p in d ensures Plain(p.0, 329) && Plain(p.1, 71) {
      ImagePlain(p);
    }
    hide Listed, ImageName, Digest, Plain;
    ListedBound(d, 329, 71);
    assert |"image_digests"| == 13;
  }

  /** Whatever the layers held, what is left without `env` is within the budget. */
  lemma FitsWithoutEnv(ctx: Ctx)
    requires WellFormed(ctx)
    ensures Size(ctx.(env := None)) <= 6568
  {
    var bare := ctx.(env := None);
    if ctx.runtime.Some? {
      RuntimeSize(ctx.runtime.value);
    }
    if ctx.fingerprints.Some? {
      LockfilesPlain(ctx.fingerprints.value);
      FingerprintsSize(ctx.fingerprints.value);
    }
    if ctx.images.Some? {
      ImagesSize(ctx.images.value);
    }
    SizeIsLength(bare);
    assert forall name :: Section(name, None) == "";
    assert |VERSION_FIELD| == 6;
    hide Section, Size, WellFormed;
  }

  // ----- Fitting -----

  function Without(d: Dict, keys: set<string>): Dict {
    if d == [] then []
    else
      var init, last := d[..|d| - 1], d[|d| - 1];
      Without(init, keys) + (if last.0 in keys then [] else [last])
  }

  /** The keys that may go, last entered first. */
  function Extras(d: Dict, keep: set<string>): seq<string> {
    if d == [] then []
    else
      var init, last := d[..|d| - 1], d[|d| - 1];
      (if last.0 in keep then [] else [last.0]) + Extras(init, keep)
  }

  function KeySet(keys: seq<string>): set<string> {
    set k | k in keys
  }

  function DropExtras(d: Dict, keep: set<string>, n: nat): Dict
    requires n <= |Extras(d, keep)|
  {
    Without(d, KeySet(Extras(d, keep)[..n]))
  }

  lemma {:induction false} WithoutTwice(d: Dict, a: set<string>, b: set<string>)
    ensures Without(Without(d, a), b) == Without(d, a + b)
  {
    if d != [] {
      var init, last := d[..|d| - 1], d[|d| - 1];
      WithoutTwice(init, a, b);
      if last.0 !in a {
        var w := Without(init, a);
        assert (w + [last])[..|w|] == w;
      } else {
        assert Without(d, a) == Without(init, a);
      }
    }
  }

  lemma {:induction false} WithoutNone(d: Dict)
    ensures Without(d, {}) == d
  {
    if d != [] {
      WithoutNone(d[..|d| - 1]);
    }
  }

  lemma DropOneMore(d: Dict, keep: set<string>, n: nat)
    requires n < |Extras(d, keep)|
    ensures Without(DropExtras(d, keep, n), {Extras(d, keep)[n]}) == DropExtras(d, keep, n + 1)
  {
    var extras := Extras(d, keep);
    assert extras[..n + 1] == extras[..n] + [extras[n]];
    assert KeySet(extras[..n]) + {extras[n]} == KeySet(extras[..n + 1]);
    WithoutTwice(d, KeySet(extras[..n]), {extras[n]});
  }

  lemma {:induction false} ExtrasNotKept(d: Dict, keep: set<string>)
    ensures forall k :: k in Extras(d, keep) ==> k !in keep
  {
    if d != [] {
      ExtrasNotKept(d[..|d| - 1], keep);
    }
  }

  lemma {:induction false} WithoutKeeps(d: Dict, keys: set<string>)
    ensures forall p :: p in Without(d, keys) <==> p in d && p.0 !in keys
  {
    if d != [] {
      var init, last := d[..|d| - 1], d[|d| - 1];
      WithoutKeeps(init, keys);
      assert d == init + [last];
    }
  }

  /** An entry to keep survives however many extras go. */
  lemma KeptSurvive(d: Dict, keep: set<string>, n: nat)
    requires n <= |Extras(d, keep)|
    ensures forall p :: p in d && p.0 in keep ==> p in DropExtras(d, keep, n)
  {
    ExtrasNotKept(d, keep);
    WithoutKeeps(d, KeySet(Extras(d, keep)[..n]));
    hide Without, Extras;
  }

  /** What fitting must leave of `was`: everything if it fits; else no `env` if that fits; else no images either
      and the fewest extras dropped from the runtime that make it fit, all of them if none do. */
  ghost predicate Fitted(was: Ctx, now: Ctx, keep: set<string>) {
    var noEnv := was.(env := None);
    var bare := noEnv.(images := None);
    if Size(was) <= CONTEXT_MAX_BYTES then now == was
    else if Size(noEnv) <= CONTEXT_MAX_BYTES then now == noEnv
    else if bare.runtime.None? then now == bare
    else exists n :: FittedAt(bare, now, keep, n)
  }

  ghost predicate FittedAt(bare: Ctx, now: Ctx, keep: set<string>, n: nat)
    requires bare.runtime.Some?
  {
    && n <= |Extras(bare.runtime.value, keep)|
    && now == Dropped(bare, keep, n)
    && (n == |Extras(bare.runtime.value, keep)| || Size(now) <= CONTEXT_MAX_BYTES)
    && forall m :: 0 <= m < n ==> Size(Dropped(bare, keep, m)) > CONTEXT_MAX_BYTES
  }

  function Dropped(bare: Ctx, keep: set<string>, n: nat): Ctx
    requires bare.runtime.Some? && n <= |Extras(bare.runtime.value, keep)|
  {
    bare.(runtime := Some(DropExtras(bare.runtime.value, keep, n)))
  }

  /** The context dict, whose sections are removed in place. */
  class Context {
    var runtime: Option<Dict>
    var fingerprints: Option<Dict>
    var images: Option<Dict>
    var env: Option<Dict>

    function View(): Ctx
      reads this
    {
      Ctx(runtime, fingerprints, images, env)
    }

    constructor (runtime: Option<Dict>, fingerprints: Option<Dict>, images: Option<Dict>, env: Option<Dict>)
      ensures View() == Ctx(runtime, fingerprints, images, env)
    {
      this.runtime, this.fingerprints, this.images, this.env := runtime, fingerprints, images, env;
    }

    method Fit(keep: set<string>)
      modifies this
      ensures Fitted(old(View()), View(), keep)
    {
      hide Size, DropExtras, Extras, Without;
      if Size(View()) <= CONTEXT_MAX_BYTES {
        return;
      }
      env := None;
      if Size(View()) <= CONTEXT_MAX_BYTES {
        return;
      }
      images := None;
      if runtime.None? {
        return;
      }
      ghost var bare := View();
      var extras := Extras(runtime.value, keep);
      DropNone(runtime.value, keep);
      var n := 0;
      while n < |extras|
        invariant 0 <= n <= |extras|
        invariant View() == Dropped(bare, keep, n)
        invariant forall m :: 0 <= m < n ==> Size(Dropped(bare, keep, m)) > CONTEXT_MAX_BYTES
      {
        if Size(View()) <= CONTEXT_MAX_BYTES {
          break;
        }
        DropOneMore(bare.runtime.value, keep, n);
        runtime := Some(Without(runtime.value, {extras[n]}));
        n := n + 1;
      }
      assert FittedAt(bare, View(), keep, n);
    }
  }

  lemma DropNone(d: Dict, keep: set<string>)
    ensures DropExtras(d, keep, 0) == d
  {
    WithoutNone(d);
    assert KeySet(Extras(d, keep)[..0]) == {};
  }

  /** On every context the merges can build, fitting drops `env` or nothing, and the result is in budget. */
  lemma OnlyEnvIsDropped(was: Ctx, now: Ctx, keep: set<string>)
    requires WellFormed(was) && Fitted(was, now, keep)
    ensures Size(now) <= CONTEXT_MAX_BYTES
    ensures now == if Size(was) <= CONTEXT_MAX_BYTES then was else was.(env := None)
  {
    FitsWithoutEnv(was);
    hide Size, WellFormed, Dropped;
  }

  /** On any context at all, what is to be kept of the runtime stays, and so do the fingerprints. */
  lemma FittingKeeps(was: Ctx, now: Ctx, keep: set<string>)
    requires Fitted(was, now, keep)
    ensures now.fingerprints == was.fingerprints
    ensures was.runtime.Some? ==>
              && now.runtime.Some?
              && forall p :: p in was.runtime.value && p.0 in keep ==> p in now.runtime.value
  {
    hide Size, DropExtras, Extras, Without;
    var bare := was.(env := None, images := None);
    if was.runtime.Some? && now.runtime != was.runtime {
      var n :| FittedAt(bare, now, keep, n);
      KeptSurvive(was.runtime.value, keep, n);
    }
  }

  // ----- The environment -----

  predicate Control(c: char) {
    (c as int) < 32 || c as int == 127
  }

  function DropControls(s: string): string {
    if s == "" then "" else (if Control(s[0]) then "" else [s[0]]) + DropControls(s[1..])
  }

  /** One allowlisted value as it is sent; the token shapes are a parameter. */
  function RedactEnvValue(value: string, tokenShaped: string -> bool): (r: string)
    ensures r == Settle.REDACTED || !tokenShaped(r)
    ensures tokenShaped(DropControls(value)) ==> r == Settle.REDACTED
    ensures |r| <= ENV_VALUE_MAX
  {
    var text := DropControls(value);
    if tokenShaped(text) then Settle.REDACTED
    else
      var cut := Text.Take(UserinfoMask.Mask(text), ENV_VALUE_MAX);
      if tokenShaped(cut) then Settle.REDACTED else cut
  }

  /** What is neither a control character nor in a token-shaped value or a password is sent as it is. */
  lemma EnvValueKept(value: string, tokenShaped: string -> bool)
    requires NoControls(value) && UserinfoMask.Mask(value) == value && !tokenShaped(value)
    ensures |value| <= 200 ==> RedactEnvValue(value, tokenShaped) == value
    ensures |value| > 200 && !tokenShaped(value[..200]) ==> RedactEnvValue(value, tokenShaped) == value[..200]
  {
    ControlsDropped(value);
    hide DropControls, UserinfoMask.Mask, NoControls;
  }

  /** Each control character is dropped, and nothing else. */
  lemma {:induction false} DropControlsConcat(a: string, b: string)
    ensures DropControls(a + b) == DropControls(a) + DropControls(b)
  {
    hide Control;
    if a == "" {
      assert a + b == b;
    } else {
      DropControlsConcat(a[1..], b);
      assert (a + b)[1..] == a[1..] + b;
    }
  }

  lemma DropOne(c: char)
    ensures DropControls([c]) == if (c as int) < 0x20 || c as int == 0x7F then "" else [c]
  {
    assert [c][1..] == "" && DropControls("") == "";
  }

  predicate NoControls(s: string) {
    forall i :: 0 <= i < |s| ==> !Control(s[i])
  }

  lemma {:induction false} ControlsDropped(s: string)
    ensures NoControls(DropControls(s)) && (NoControls(s) ==> DropControls(s) == s)
  {
    if s != "" {
      ControlsDropped(s[1..]);
    }
  }

  lemma MarkerFixed()
    ensures |Settle.REDACTED| <= ENV_VALUE_MAX && NoControls(Settle.REDACTED)
    ensures UserinfoMask.Mask(Settle.REDACTED) == Settle.REDACTED
  {
    hide UserinfoMask.Mask;
    assert '@' !in Settle.REDACTED;
    UserinfoMask.NoAtStays(Settle.REDACTED);
  }

  lemma MaskedNoControls(s: string)
    requires NoControls(s)
    ensures NoControls(UserinfoMask.Mask(s))
  {
    var m := UserinfoMask.Mask(s);
    MarkerFixed();
    forall i | 0 <= i < |m|
      ensures !Control(m[i])
    {
      assert m[i] in m;
      if m[i] !in Settle.REDACTED && m[i] != '@' {
        UserinfoMask.MaskAdds(s, m[i]);
      }
    }
    hide UserinfoMask.Mask;
  }

  /** What is sent has no control character and no password left to mask, however the cut fell. */
  lemma EnvValueClean(value: string, tokenShaped: string -> bool)
    ensures var r := RedactEnvValue(value, tokenShaped); NoControls(r) && UserinfoMask.Mask(r) == r
  {
    var text := DropControls(value);
    var cut := Text.Take(UserinfoMask.Mask(text), ENV_VALUE_MAX);
    ControlsDropped(value);
    hide DropControls;
    MarkerFixed();
    MaskedNoControls(text);
    UserinfoMask.MaskedPrefixStays(text, cut);
    hide UserinfoMask.Mask;
  }

  /** Redacting an already redacted value changes nothing, as the server's second pass needs; the marker itself
      must not be shaped like a token. */
  lemma RedactEnvTwice(value: string, tokenShaped: string -> bool)
    requires !tokenShaped(Settle.REDACTED)
    ensures var once := RedactEnvValue(value, tokenShaped); RedactEnvValue(once, tokenShaped) == once
  {
    var once := RedactEnvValue(value, tokenShaped);
    EnvValueClean(value, tokenShaped);
    ControlsDropped(once);
    assert |once| <= ENV_VALUE_MAX && !tokenShaped(once);
    hide DropControls, UserinfoMask.Mask, NoControls;
    assert Text.Take(once, ENV_VALUE_MAX) == once;
  }

  /** One password cannot be told from another in the value as it is sent, wherever in the text the URL stands and
      however the cut falls, unless a text as a whole is shaped like a token. */
  lemma EnvValueHidesPassword(a: string, user: string, p: string, q: string, rest: string,
                              tokenShaped: string -> bool)
    requires UserinfoMask.User(user) && UserinfoMask.Password(p) && UserinfoMask.Password(q)
    requires var s := UserinfoMask.WithUserinfo(a, user, p, rest); NoControls(s) && !tokenShaped(s)
    requires var t := UserinfoMask.WithUserinfo(a, user, q, rest); NoControls(t) && !tokenShaped(t)
    ensures RedactEnvValue(UserinfoMask.WithUserinfo(a, user, p, rest), tokenShaped)
         == RedactEnvValue(UserinfoMask.WithUserinfo(a, user, q, rest), tokenShaped)
  {
    hide DropControls, UserinfoMask.Mask, NoControls, UserinfoMask.WithUserinfo, UserinfoMask.User;
    ControlsDropped(UserinfoMask.WithUserinfo(a, user, p, rest));
    ControlsDropped(UserinfoMask.WithUserinfo(a, user, q, rest));
    UserinfoMask.MaskHidesPassword(a, user, p, q, rest);
  }

  // ----- Collecting -----

  /** The environment, every value redacted. */
  function Redacted(environ: map<string, string>, tokenShaped: string -> bool): map<string, string> {
    map name | name in environ :: RedactEnvValue(environ[name], tokenShaped)
  }

  /** A variable on the allow list with its value redacted: the marker or no token, without control characters or
      a password left to mask, and not too long. */
  ghost predicate CleanVariable(p: Pair, environ: map<string, string>, tokenShaped: string -> bool) {
    && p.0 in ENV_ALLOWLIST && p.0 in environ && p.1 == RedactEnvValue(environ[p.0], tokenShaped)
    && p.1 != "" && |p.1| <= ENV_VALUE_MAX && (p.1 == Settle.REDACTED || !tokenShaped(p.1))
    && NoControls(p.1) && UserinfoMask.Mask(p.1) == p.1
  }

  lemma LookedEnvClean(environ: map<string, string>, tokenShaped: string -> bool)
    ensures forall p :: p in Looked(ENV_ALLOWLIST, Redacted(environ, tokenShaped)) ==>
                          CleanVariable(p, environ, tokenShaped)
  {
    LookedUp(ENV_ALLOWLIST, Redacted(environ, tokenShaped));
    hide Looked, NoControls, UserinfoMask.Mask, DropControls, ENV_ALLOWLIST;
    forall p | p in Looked(ENV_ALLOWLIST, Redacted(environ, tokenShaped))
      ensures CleanVariable(p, environ, tokenShaped)
    {
      EnvValueClean(environ[p.0], tokenShaped);
      hide RedactEnvValue;
    }
  }

  /** A section is left out when it is empty. */
  function NonEmpty(d: Dict): Option<Dict> {
    if d == [] then None else Some(d)
  }

  /** `found` has the names of `names` that `values` gives a non-empty text for, in order. */
  function Looked(names: seq<string>, values: map<string, string>): Dict {
    if names == [] then []
    else
      var init, name := names[..|names| - 1], names[|names| - 1];
      Looked(init, values)
      + (if name in values && values[name] != "" then [(name, values[name])] else [])
  }

  lemma {:induction false} LookedUp(names: seq<string>, values: map<string, string>)
    ensures |Looked(names, values)| <= |names|
    ensures forall p :: p in Looked(names, values) <==> p.0 in names && p.0 in values && values[p.0] == p.1 != ""
  {
    if names != [] {
      LookedUp(names[..|names| - 1], values);
      assert names == names[..|names| - 1] + [names[|names| - 1]];
    }
  }

  method LookUp(names: seq<string>, values: map<string, string>) returns (found: Dict)
    ensures found == Looked(names, values)
  {
    found := [];
    var i := 0;
    assert names[..0] == [];
    while i < |names|
      invariant 0 <= i <= |names|
      invariant found == Looked(names[..i], values)
    {
      assert names[..i + 1][..i] == names[..i];
      if names[i] in values && values[names[i]] != "" {
        found := found + [(names[i], values[names[i]])];
      }
      i := i + 1;
    }
    assert names[..i] == names;
  }

  lemma {:induction false} AllPairsGood(layers: seq<Layer>)
    ensures forall p :: p in AllPairs(layers) && ValidRuntime(p) ==> RuntimeKey(p.0) && Version(p.1)
  {
    if layers != [] {
      AllPairsGood(layers[..|layers| - 1]);
      PairsUnpadded(layers[|layers| - 1]);
      hide ValidRuntime, RuntimeKey, Version, Pairs;
    }
  }

  lemma MergedRuntimeGood(layers: seq<Layer>)
    ensures GoodRuntime(Collected(AllPairs(layers), Runtime))
  {
    CollectedIsDict(AllPairs(layers), Runtime);
    AllPairsGood(layers);
    hide ValidRuntime, RuntimeKey, Version, AllPairs, Collected;
  }

  lemma MergedImagesGood(layer: Layer)
    ensures GoodImages(ImagesIn(layer))
  {
    CollectedIsDict(Pairs(layer), Images);
    PairsUnpadded(layer);
    hide ValidImage, ImageName, Digest, Pairs, Collected;
  }

  /** Everything that is collected, before fitting. */
  ghost predicate Gathered(ctx: Ctx, runtimeLayers: seq<Layer>, hashes: map<string, string>, imageLayers: seq<Layer>,
                           environ: map<string, string>)
  {
    && ctx.runtime == NonEmpty(Collected(AllPairs(runtimeLayers), Runtime))
    && ctx.fingerprints == NonEmpty(Looked(LOCKFILE_NAMES, hashes))
    && ctx.env == NonEmpty(Looked(ENV_ALLOWLIST, environ))
    && (ctx.images.None? ==> forall k :: 0 <= k < |imageLayers| ==> ImagesIn(imageLayers[k]) == [])
    && (ctx.images.Some? ==>
          exists k :: && 0 <= k < |imageLayers| && ctx.images == NonEmpty(ImagesIn(imageLayers[k]))
                      && forall m :: 0 <= m < k ==> ImagesIn(imageLayers[m]) == [])
  }

  lemma LookedLockfilesGood(hashes: map<string, string>)
    requires forall name :: name in hashes ==> Hash(hashes[name])
    ensures GoodFingerprints(Looked(LOCKFILE_NAMES, hashes))
  {
    LookedUp(LOCKFILE_NAMES, hashes);
    hide Looked, Hash;
  }

  lemma SomeImages(ctx: Ctx, runtimeLayers: seq<Layer>, hashes: map<string, string>, imageLayers: seq<Layer>,
                   environ: map<string, string>)
    requires Gathered(ctx, runtimeLayers, hashes, imageLayers, environ) && ctx.images.Some?
    ensures GoodImages(ctx.images.value)
  {
    hide Collected, AllPairs, Looked, ImagesIn, GoodImages;
    var k :| && 0 <= k < |imageLayers| && ctx.images == NonEmpty(ImagesIn(imageLayers[k]));
    MergedImagesGood(imageLayers[k]);
  }

  lemma GatheredIsWellFormed(ctx: Ctx, runtimeLayers: seq<Layer>, hashes: map<string, string>,
                             imageLayers: seq<Layer>, environ: map<string, string>)
    requires Gathered(ctx, runtimeLayers, hashes, imageLayers, environ)
    requires forall name :: name in hashes ==> Hash(hashes[name])
    ensures WellFormed(ctx)
  {
    MergedRuntimeGood(runtimeLayers);
    LookedLockfilesGood(hashes);
    if ctx.images.Some? {
      SomeImages(ctx, runtimeLayers, hashes, imageLayers, environ);
    }
    hide Collected, AllPairs, Looked, ImagesIn, Hash, GoodRuntime, GoodFingerprints, GoodImages;
  }

  /** The run context to send, or nothing. `hashes` maps the readable lockfiles to their sha256, and `keep` are the
      keys detected from the interpreter. */
  method CollectRunContext(enabled: bool, runtimeLayers: seq<Layer>, hashes: map<string, string>,
                           imageLayers: seq<Layer>, environ: map<string, string>, tokenShaped: string -> bool,
                           keep: set<string>)
    returns (sent: Option<Ctx>, ghost full: Ctx)
    requires forall name :: name in hashes ==> Hash(hashes[name])
    ensures Gathered(full, runtimeLayers, hashes, imageLayers, Redacted(environ, tokenShaped))
    ensures sent.None? <==> !enabled || full == Ctx(None, None, None, None)
    ensures sent.Some? ==> sent.value == if Size(full) <= 8192 then full else full.(env := None)
    ensures sent.Some? ==> Size(sent.value) <= 8192
    ensures sent.Some? && sent.value.env.Some? ==>
              forall p :: p in sent.value.env.value ==> CleanVariable(p, environ, tokenShaped)
  {
    hide Collected, AllPairs, Looked, ImagesIn, Hash, Size, Fitted, WellFormed, CleanVariable, RedactEnvValue;
    var runtime := MergeRuntime(runtimeLayers);
    var fingerprints := LookUp(LOCKFILE_NAMES, hashes);
    var images := MergeImages(imageLayers);
    var env := LookUp(ENV_ALLOWLIST, Redacted(environ, tokenShaped));
    LookedEnvClean(environ, tokenShaped);
    full := Ctx(NonEmpty(runtime), NonEmpty(fingerprints), NonEmpty(images), NonEmpty(env));
    GatheredIsWellFormed(full, runtimeLayers, hashes, imageLayers, Redacted(environ, tokenShaped));
    if !enabled || (runtime == [] && fingerprints == [] && images == [] && env == []) {
      return None, full;
    }
    var ctx := new Context(NonEmpty(runtime), NonEmpty(fingerprints), NonEmpty(images), NonEmpty(env));
    ctx.Fit(keep);
    OnlyEnvIsDropped(full, ctx.View(), keep);
    sent := Some(ctx.View());
  }
}
