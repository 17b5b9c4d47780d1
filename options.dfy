/** Command-line handling of the tunnel (src/main.rs): the argument-count
    and mode checks of Config::from_args, and parse_config with its get_opt!
    and has_opt! lookups over the semicolon-separated option string. Strings
    are sequences of Unicode scalar values, as Rust's &str is. */
module Options {

  datatype Option<T> = None | Some(value: T)

  // ---------------------------------------------------------------------
  // The string operations the lookups are built from

  /** The position of the first occurrence of `c` in `s`. */
  function IndexOf(s: string, c: char): (r: Option<nat>)
    ensures r.Some? ==> r.value < |s| && s[r.value] == c && c !in s[..r.value]
    ensures r.None? ==> c !in s
  {
    if s == [] then None
    else if s[0] == c then Some(0)
    else match IndexOf(s[1..], c)
      case None => None
      case Some(i) => Some(i + 1)
  }

  /** The pieces joined back with `sep` between consecutive ones. */
  function Join(parts: seq<string>, sep: char): string
  {
    if parts == [] then []
    else if |parts| == 1 then parts[0]
    else parts[0] + [sep] + Join(parts[1..], sep)
  }

  /** str::split with a character pattern: the pieces between consecutive
      separators, empty pieces included. */
  function Split(s: string, sep: char): (r: seq<string>)
    ensures 0 < |r|
    ensures forall k :: 0 <= k < |r| ==> sep !in r[k]
    ensures Join(r, sep) == s
    decreases |s|
  {
    match IndexOf(s, sep)
    case None => [s]
    case Some(i) =>
      var rest := Split(s[i + 1..], sep);
      assert ([s[..i]] + rest)[1..] == rest;
      assert s == s[..i] + [sep] + s[i + 1..];
      [s[..i]] + rest
  }

  /** str::split_once with a character pattern: the text before and after
      the first `sep`. */
  function SplitOnce(s: string, sep: char): (r: Option<(string, string)>)
    ensures r.None? <==> sep !in s
    ensures r.Some? ==> s == r.value.0 + [sep] + r.value.1 && sep !in r.value.0
  {
    match IndexOf(s, sep)
    case None => None
    case Some(i) =>
      assert s == s[..i] + [sep] + s[i + 1..];
      Some((s[..i], s[i + 1..]))
  }

  /** char::is_whitespace: the Unicode White_Space property. */
  predicate IsWhitespace(c: char)
  {
    ('\t' <= c <= '\r') || c == ' ' || c == '\U{85}' || c == '\U{A0}' || c == '\U{1680}' ||
    ('\U{2000}' <= c <= '\U{200A}') || c == '\U{2028}' || c == '\U{2029}' ||
    c == '\U{202F}' || c == '\U{205F}' || c == '\U{3000}'
  }

  /** The number of whitespace characters at the front of `s`. */
  function LeadingSpace(s: string): (n: nat)
    ensures n <= |s|
    ensures forall k :: 0 <= k < n ==> IsWhitespace(s[k])
    ensures n < |s| ==> !IsWhitespace(s[n])
  {
    if s == [] || !IsWhitespace(s[0]) then 0 else 1 + LeadingSpace(s[1..])
  }

  /** The number of whitespace characters at the back of `s`. */
  function TrailingSpace(s: string): (n: nat)
    ensures n <= |s|
    ensures forall k :: |s| - n <= k < |s| ==> IsWhitespace(s[k])
    ensures n < |s| ==> !IsWhitespace(s[|s| - 1 - n])
  {
    if s == [] || !IsWhitespace(s[|s| - 1]) then 0 else 1 + TrailingSpace(s[..|s| - 1])
  }

  /** The bounds str::trim keeps: everything outside them is whitespace, and
      the kept text, unless empty, starts and ends with a non-whitespace
      character. */
  function TrimBounds(s: string): (b: (nat, nat))
    ensures b.0 <= b.1 <= |s|
    ensures forall k :: 0 <= k < b.0 ==> IsWhitespace(s[k])
    ensures forall k :: b.1 <= k < |s| ==> IsWhitespace(s[k])
    ensures b.0 < b.1 ==> !IsWhitespace(s[b.0]) && !IsWhitespace(s[b.1 - 1])
  {
    var lo := LeadingSpace(s);
    if lo == |s| then (lo, lo) else (lo, |s| - TrailingSpace(s))
  }

  /** str::trim. */
  function Trim(s: string): string
  {
    s[TrimBounds(s).0..TrimBounds(s).1]
  }

  /** Trimming takes off only whitespace, and leaves text that starts and
      ends with a non-whitespace character, so trimming twice changes
      nothing more. */
  lemma TrimSound(s: string)
    ensures var r := Trim(s);
      r == [] || (!IsWhitespace(r[0]) && !IsWhitespace(r[|r| - 1]))
    ensures Trim(Trim(s)) == Trim(s)
    ensures forall c :: c in Trim(s) ==> c in s
  {
    var r := Trim(s);
    TrimKeeps(r);
  }

  /** Text that starts and ends with a non-whitespace character is left as it is. */
  lemma TrimKeeps(s: string)
    requires s == [] || (!IsWhitespace(s[0]) && !IsWhitespace(s[|s| - 1]))
    ensures Trim(s) == s
  {
    var b := TrimBounds(s);
    if s != [] {
      assert b.0 == 0 && b.1 == |s|;
    }
    assert s[b.0..b.1] == s;
  }

  /** The bounds str::trim keeps are the only ones with whitespace outside
      and, unless the kept text is empty, non-whitespace at both of its ends. */
  lemma TrimUnique(s: string, lo: nat, hi: nat)
    requires lo <= hi <= |s|
    requires forall k :: 0 <= k < lo ==> IsWhitespace(s[k])
    requires forall k :: hi <= k < |s| ==> IsWhitespace(s[k])
    requires lo < hi ==> !IsWhitespace(s[lo]) && !IsWhitespace(s[hi - 1])
    ensures Trim(s) == s[lo..hi]
  {
    var n := LeadingSpace(s);
    if lo < hi {
      assert n == lo;
      var t := TrailingSpace(s);
      assert t == |s| - hi;
    } else {
      assert n == |s|;
    }
  }

  function StartsWith(s: string, prefix: string): bool
  {
    prefix <= s
  }

  /** Iterator::find over the segments: the position of the first segment
      that satisfies `p`. */
  function FindFirst(segs: seq<string>, p: string -> bool): (r: Option<nat>)
    ensures r.Some? ==> r.value < |segs| && p(segs[r.value]) &&
                        forall j :: 0 <= j < r.value ==> !p(segs[j])
    ensures r.None? ==> forall j :: 0 <= j < |segs| ==> !p(segs[j])
  {
    if segs == [] then None
    else if p(segs[0]) then Some(0)
    else match FindFirst(segs[1..], p)
      case None => None
      case Some(i) => Some(i + 1)
  }

  /** find stops at the first segment that satisfies `p`: that position is
      the one it returns. */
  lemma {:induction false} FindFirstIsFirst(segs: seq<string>, p: string -> bool, k: nat)
    requires k < |segs| && p(segs[k])
    requires forall j :: 0 <= j < k ==> !p(segs[j])
    ensures FindFirst(segs, p) == Some(k)
  {
    if k > 0 {
      assert !p(segs[0]);
      FindFirstIsFirst(segs[1..], p, k - 1);
    }
  }

  // ---------------------------------------------------------------------
  // get_opt!, has_opt! and parse_config

  /** The option string split on ';' with every segment trimmed. */
  function Segments(config: string): (segs: seq<string>)
    ensures |segs| == |Split(config, ';')|
    ensures forall k :: 0 <= k < |segs| ==> segs[k] == Trim(Split(config, ';')[k])
    ensures forall k :: 0 <= k < |segs| ==> ';' !in segs[k] && Trim(segs[k]) == segs[k]
  {
    var parts := Split(config, ';');
    forall k | 0 <= k < |parts|
      ensures ';' !in Trim(parts[k]) && Trim(Trim(parts[k])) == Trim(parts[k])
    {
      TrimSound(parts[k]);
    }
    seq(|parts|, k requires 0 <= k < |parts| => Trim(parts[k]))
  }

  /** The value get_opt! takes from the segment it found: the trimmed text
      after the first '=', or nothing if there is no '=' or that text is
      empty. */
  function OptValue(seg: string): (r: Option<string>)
    ensures '=' !in seg ==> r.None?
    ensures r.Some? ==> r.value != [] && Trim(r.value) == r.value &&
                        forall c :: c in r.value ==> c in seg
  {
    match SplitOnce(seg, '=')
    case None => None
    case Some((k, v)) =>
      TrimSound(v);
      assert forall c :: c in v ==> c in seg by {
        assert seg == k + "=" + v;
      }
      if Trim(v) == [] then None else Some(Trim(v))
  }

  /** get_opt!(config => name): the value of the first segment that starts with `name`. */
  function GetOpt(config: string, name: string): (r: Option<string>)
    ensures r.Some? ==> r.value != [] && ';' !in r.value && Trim(r.value) == r.value
  {
    var segs := Segments(config);
    match FindFirst(segs, s => StartsWith(s, name))
    case None => None
    case Some(k) =>
      OptValue(segs[k])
  }

  /** has_opt!(config => name): some segment equals `name` exactly. */
  function HasOpt(config: string, name: string): (r: bool)
    ensures r <==> name in Segments(config)
  {
    FindFirst(Segments(config), s => s == name).Some?
  }

  /** The host name parse_config settles on: the value of `sni`, else the
      value of `servername`, else "localhost". */
  function Hostname(config: string): (h: string)
    ensures h != [] && ';' !in h && Trim(h) == h
  {
    match GetOpt(config, "sni")
    case Some(v) => v
    case None =>
      match GetOpt(config, "servername")
      case Some(v) => v
      case None =>
        TrimKeeps("localhost");
        "localhost"
  }

  /** parse_config: the host name, and whether the `insecure` flag is present. */
  function ParseConfig(config: string): (r: (string, bool))
    ensures r.0 != [] && ';' !in r.0 && Trim(r.0) == r.0
    ensures r.1 <==> "insecure" in Segments(config)
  {
    (Hostname(config), HasOpt(config, "insecure"))
  }

  // ---------------------------------------------------------------------
  // What the lookups promise

  /** The first occurrence found by IndexOf is the only one with nothing of
      its kind before it. */
  lemma IndexOfFirst(s: string, c: char, i: nat)
    requires i < |s| && s[i] == c && c !in s[..i]
    ensures IndexOf(s, c) == Some(i)
  {
  }

  /** Splitting the joined pieces gives the pieces back, when none of them
      contains the separator: split and join are inverse. */
  lemma {:induction false} SplitJoin(parts: seq<string>, sep: char)
    requires 0 < |parts|
    requires forall k :: 0 <= k < |parts| ==> sep !in parts[k]
    ensures Split(Join(parts, sep), sep) == parts
  {
    if |parts| > 1 {
      var s := Join(parts, sep);
      var rest := Join(parts[1..], sep);
      assert s == parts[0] + [sep] + rest;
      assert s[..|parts[0]|] == parts[0];
      IndexOfFirst(s, sep, |parts[0]|);
      assert s[|parts[0]| + 1..] == rest;
      SplitJoin(parts[1..], sep);
    }
  }

  /** The value is the trimmed text after the FIRST '=': later '='
      characters stay in the value, and a blank value counts as absent. */
  lemma OptValueAfterFirstEquals(key: string, rest: string)
    requires '=' !in key
    ensures OptValue(key + "=" + rest) == if Trim(rest) == [] then None else Some(Trim(rest))
  {
    var s := key + "=" + rest;
    assert s[..|key|] == key;
    IndexOfFirst(s, '=', |key|);
    assert s[|key| + 1..] == rest;
  }

  /** get_opt! looks only at the first segment that starts with the key:
      its value, or nothing, decides the lookup, and later segments with
      the same key are never consulted. */
  lemma GetOptFirstMatch(config: string, name: string, k: nat)
    requires k < |Segments(config)| && StartsWith(Segments(config)[k], name)
    requires forall j :: 0 <= j < k ==> !StartsWith(Segments(config)[j], name)
    ensures GetOpt(config, name) == OptValue(Segments(config)[k])
  {
    FindFirstIsFirst(Segments(config), s => StartsWith(s, name), k);
  }

  /** The host name is the value of the first segment starting with "sni"
      when that value exists. */
  lemma HostnameFromSni(config: string, k: nat, v: string)
    requires k < |Segments(config)| && StartsWith(Segments(config)[k], "sni")
    requires forall j :: 0 <= j < k ==> !StartsWith(Segments(config)[j], "sni")
    requires OptValue(Segments(config)[k]) == Some(v)
    ensures Hostname(config) == v
  {
    GetOptFirstMatch(config, "sni", k);
  }

  /** When the first "sni" segment yields nothing, or there is none, the host
      name is the value of the first segment starting with "servername". */
  lemma HostnameFromServername(config: string, k: nat, v: string)
    requires GetOpt(config, "sni") == None
    requires k < |Segments(config)| && StartsWith(Segments(config)[k], "servername")
    requires forall j :: 0 <= j < k ==> !StartsWith(Segments(config)[j], "servername")
    requires OptValue(Segments(config)[k]) == Some(v)
    ensures Hostname(config) == v
  {
    GetOptFirstMatch(config, "servername", k);
  }

  /** The first segment that starts with `name`, if there is one, has no
      value: either no '=' or only whitespace after it. */
  ghost predicate FirstMatchValueless(segs: seq<string>, name: string)
  {
    forall k ::
      (0 <= k < |segs| && StartsWith(segs[k], name) &&
       forall j :: 0 <= j < k ==> !StartsWith(segs[j], name))
      ==> OptValue(segs[k]).None?
  }

  /** get_opt! yields nothing exactly when no segment starts with the key or
      the first one that does has no value ("sni;sni=foo", "sni=" and
      "sni= " all give sni nothing). */
  lemma GetOptNothing(config: string, name: string)
    ensures GetOpt(config, name).None? <==> FirstMatchValueless(Segments(config), name)
  {
    var segs := Segments(config);
    if GetOpt(config, name).None? {
      forall k | 0 <= k < |segs| && StartsWith(segs[k], name) &&
                 (forall j :: 0 <= j < k ==> !StartsWith(segs[j], name))
        ensures OptValue(segs[k]).None?
      {
        GetOptFirstMatch(config, name, k);
      }
    }
  }

  /** The host name is "localhost" whenever neither "sni" nor "servername"
      yields a value: no segment starts with them, or the first that does
      has no value (so "sni;sni=foo" falls back to "localhost"). */
  lemma HostnameDefault(config: string)
    requires FirstMatchValueless(Segments(config), "sni")
    requires FirstMatchValueless(Segments(config), "servername")
    ensures Hostname(config) == "localhost"
  {
    GetOptNothing(config, "sni");
    GetOptNothing(config, "servername");
  }

  /** The pieces of `seg + ";" + rest` are `seg` followed by the pieces of `rest`. */
  lemma SplitFirst(seg: string, rest: string)
    requires ';' !in seg
    ensures Split(seg + ";" + rest, ';') == [seg] + Split(rest, ';')
  {
    var s := seg + ";" + rest;
    assert s[..|seg|] == seg;
    IndexOfFirst(s, ';', |seg|);
    assert s[|seg| + 1..] == rest;
  }

  /** When the first segment starts with the key, it alone decides the
      lookup, whatever follows it. */
  lemma GetOptFirstSegment(seg: string, rest: string, name: string)
    requires ';' !in seg && StartsWith(Trim(seg), name)
    ensures GetOpt(seg + ";" + rest, name) == OptValue(Trim(seg))
  {
    SplitFirst(seg, rest);
    GetOptFirstMatch(seg + ";" + rest, name, 0);
  }

  /** A bare key hides any later value for it ("sni;sni=foo" gives sni no
      value): the first segment starting with the key has no '=', and later
      segments are not consulted. */
  lemma BareKeyHidesLaterValue(name: string, rest: string)
    requires name != [] && !IsWhitespace(name[0]) && !IsWhitespace(name[|name| - 1])
    requires '=' !in name && ';' !in name
    ensures GetOpt(name + ";" + rest, name) == None
  {
    TrimKeeps(name);
    GetOptFirstSegment(name, rest, name);
  }

  /** A lone segment that starts with the key decides the lookup. */
  lemma GetOptOnlySegment(seg: string, name: string)
    requires ';' !in seg && StartsWith(Trim(seg), name)
    ensures GetOpt(seg, name) == OptValue(Trim(seg))
  {
    GetOptFirstMatch(seg, name, 0);
  }

  /** Trimming "key=value" takes off only the value's trailing whitespace,
      when the key starts with a non-whitespace character. */
  lemma TrimKeyValue(key: string, value: string, hi: nat)
    requires key != [] && !IsWhitespace(key[0])
    requires hi <= |value| && (0 < hi ==> !IsWhitespace(value[hi - 1]))
    requires forall k :: hi <= k < |value| ==> IsWhitespace(value[k])
    ensures Trim(key + "=" + value) == key + "=" + value[..hi]
  {
    var seg := key + "=" + value;
    var n := |key| + 1;
    assert seg[n - 1] == '=';
    assert forall k :: n + hi <= k < |seg| ==> seg[k] == value[k - n];
    TrimUnique(seg, 0, n + hi);
    assert seg[..n + hi] == key + "=" + value[..hi];
  }

  /** A lone segment "key=value" gives `name` the trimmed value whenever
      the key merely starts with `name` ("snix=bar " gives sni the value
      "bar"), and everything after the first '=' is the value ("sni=a=b"
      gives sni the value "a=b"). */
  lemma GetOptKeyValue(key: string, value: string, name: string)
    requires key != [] && !IsWhitespace(key[0]) && StartsWith(key, name)
    requires '=' !in key && ';' !in key && ';' !in value
    ensures GetOpt(key + "=" + value, name) == if Trim(value) == [] then None else Some(Trim(value))
  {
    var seg := key + "=" + value;
    assert ';' !in seg;
    KeyValueKeepsKey(key, value, name);
    GetOptOnlySegment(seg, name);
    var _ := TrimmedValue(key, value);
  }

  /** The trimmed segment "key=value" still starts with every prefix of the key. */
  lemma KeyValueKeepsKey(key: string, value: string, name: string)
    requires key != [] && !IsWhitespace(key[0]) && '=' !in key && StartsWith(key, name)
    ensures StartsWith(Trim(key + "=" + value), name)
  {
    var hi := TrimmedValue(key, value);
    assert (key + "=" + value[..hi])[..|key|] == key;
  }

  /** A slice of a prefix is the same slice of the whole sequence. */
  lemma SliceOfPrefix<T>(s: seq<T>, lo: nat, hi: nat)
    requires lo <= hi <= |s|
    ensures s[..hi][lo..hi] == s[lo..hi]
  {
  }

  /** The value of the trimmed segment "key=value" is the trimmed value;
      `hi` is where the value's trailing whitespace starts. */
  lemma TrimmedValue(key: string, value: string) returns (hi: nat)
    requires key != [] && !IsWhitespace(key[0]) && '=' !in key
    ensures hi <= |value| && Trim(key + "=" + value) == key + "=" + value[..hi]
    ensures OptValue(Trim(key + "=" + value)) == if Trim(value) == [] then None else Some(Trim(value))
  {
    var b := TrimBounds(value);
    if b.0 == b.1 {
      hi := 0;
      TrimUnique(value, 0, 0);
      TrimKeyValue(key, value, 0);
      var rest: string := [];
      assert value[..0] == rest;
      OptValueAfterFirstEquals(key, rest);
      TrimKeeps(rest);
      assert OptValue(key + "=" + rest) == None;
    } else {
      hi := b.1;
      TrimKeyValue(key, value, hi);
      var rest := value[..hi];
      OptValueAfterFirstEquals(key, rest);
      TrimUnique(rest, b.0, hi);
      SliceOfPrefix(value, b.0, hi);
      assert Trim(value) == value[b.0..b.1];
      assert OptValue(key + "=" + rest) == Some(Trim(value));
    }
  }

  // ---------------------------------------------------------------------
  // Config::from_args

  datatype Mode = Client | Server

  /** The parsed invocation. The two addresses are kept as the argument
      text: resolving them is not part of this model. */
  datatype Config = Config(mode: Mode, local: string, remote: string, hostname: string, insecure: bool)

  /** Accepted, or rejected with the usage text and exit status 1. */
  datatype Invocation = Accepted(config: Config) | UsageError

  /** The command-line flag that selects a mode. */
  function ModeFlag(m: Mode): string
  {
    match m
    case Server => "-s"
    case Client => "-c"
  }

  /** The mode argument: "-s" is the server, "-c" the client, and nothing
      else is accepted. */
  function ParseMode(flag: string): (m: Option<Mode>)
    ensures m.Some? <==> flag == "-s" || flag == "-c"
    ensures m.Some? ==> ModeFlag(m.value) == flag
  {
    if flag == "-s" then Some(Server)
    else if flag == "-c" then Some(Client)
    else None
  }

  /** Config::from_args on the whole argument vector, program name first:
      exactly five arguments and a known mode are required; the option
      string is the fifth. */
  function FromArgs(args: seq<string>): (r: Invocation)
    ensures r.Accepted? <==> |args| == 5 && (args[1] == "-s" || args[1] == "-c")
    ensures r.Accepted? ==>
      ModeFlag(r.config.mode) == args[1] &&
      r.config.local == args[2] && r.config.remote == args[3] &&
      (r.config.hostname, r.config.insecure) == ParseConfig(args[4])
  {
    if |args| != 5 then UsageError
    else match ParseMode(args[1])
      case None => UsageError
      case Some(mode) =>
        var (hostname, insecure) := ParseConfig(args[4]);
        Accepted(Config(mode, args[2], args[3], hostname, insecure))
  }
}
