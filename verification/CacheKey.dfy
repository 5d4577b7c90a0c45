/** faim_native/cache/query_cache.py: `make_cache_key` and `parse_cache_key`. */
module CacheKey {
  import opened Options

  datatype Fields = Fields(tenant: string, graph: string, version: int, hash: string, profile: string, k: int)

  /** `str(n)` */
  function Decimal(n: int): string
    decreases if n < 0 then 1 - n else n
  {
    if n < 0 then "-" + Decimal(-n)
    else if n < 10 then [Digit(n)]
    else Decimal(n / 10) + [Digit(n % 10)]
  }

  function Digit(d: int): char
    requires 0 <= d < 10
  {
    ('0' as int + d) as char
  }

  function ParseDigits(s: string): Option<int> {
    if s == "" then None
    else
      var c := s[|s| - 1];
      if !('0' <= c <= '9') then None
      else
        var d := c as int - '0' as int;
        if |s| == 1 then Some(d)
        else
          match ParseDigits(s[..|s| - 1])
          case None => None
          case Some(n) => Some(10 * n + d)
  }

  /** `int(s)` on an optional minus sign and digits; None stands for ValueError. */
  function ParseInt(s: string): Option<int> {
    if s != "" && s[0] == '-' then
      match ParseDigits(s[1..])
      case None => None
      case Some(n) => Some(-n)
    else ParseDigits(s)
  }

  /** `s.split(":")` */
  function Split(s: string): (parts: seq<string>)
    ensures |parts| > 0
  {
    if s == "" then [""]
    else
      var rest := Split(s[1..]);
      if s[0] == ':' then [""] + rest else [[s[0]] + rest[0]] + rest[1..]
  }

  const PREFIX := "faim:query:"

  function MakeCacheKey(f: Fields): string {
    PREFIX + f.tenant + ":" + f.graph + ":v" + Decimal(f.version) + ":" + f.hash + ":" + f.profile + ":k" + Decimal(f.k)
  }

  function ParseCacheKey(key: string): Option<Fields> {
    if !(PREFIX <= key) then None else ParseParts(Split(key))
  }

  function ParseParts(parts: seq<string>): Option<Fields> {
    if |parts| != 8 then None
    else
      var version, k := ParseInt(Tail(parts[4])), ParseInt(Tail(parts[7]));
      if version.None? || k.None? then None
      else Some(Fields(parts[2], parts[3], version.value, parts[5], parts[6], k.value))
  }

  /** `s[1:]` */
  function Tail(s: string): string {
    if s == "" then "" else s[1..]
  }

  predicate ColonFree(s: string) {
    ':' !in s
  }

  predicate Clean(f: Fields) {
    ColonFree(f.tenant) && ColonFree(f.graph) && ColonFree(f.hash) && ColonFree(f.profile)
  }

  // ---- decimals

  lemma {:induction false} DigitsRoundTrip(n: nat)
    ensures ParseDigits(Decimal(n)) == Some(n)
    ensures ColonFree(Decimal(n)) && Decimal(n) != "" && Decimal(n)[0] != '-'
  {
    if n >= 10 {
      DigitsRoundTrip(n / 10);
      var s := Decimal(n);
      assert s[..|s| - 1] == Decimal(n / 10) && s[|s| - 1] == Digit(n % 10);
    }
  }

  lemma MinusRoundTrip(digits: string, n: int)
    requires ParseDigits(digits) == Some(n) && ColonFree(digits)
    ensures ParseInt("-" + digits) == Some(-n) && ColonFree("-" + digits)
  {
    assert ("-" + digits)[1..] == digits;
  }

  lemma PlainRoundTrip(digits: string, n: int)
    requires ParseDigits(digits) == Some(n) && digits != "" && digits[0] != '-'
    ensures ParseInt(digits) == Some(n)
  {}

  lemma DecimalRoundTrip(n: int)
    ensures ParseInt(Decimal(n)) == Some(n) && ColonFree(Decimal(n))
  {
    if n < 0 {
      DigitsRoundTrip(-n);
      MinusRoundTrip(Decimal(-n), -n);
    } else {
      DigitsRoundTrip(n);
      PlainRoundTrip(Decimal(n), n);
    }
  }

  // ---- splitting

  lemma {:induction false} SplitAtColon(a: string, b: string)
    ensures Split(a + ":" + b) == Split(a) + Split(b)
  {
    if a == "" {
      assert "" + ":" + b == ":" + b && (":" + b)[1..] == b;
    } else {
      assert (a + ":" + b)[1..] == a[1..] + ":" + b;
      SplitAtColon(a[1..], b);
    }
  }

  lemma {:induction false} SplitCount(s: string)
    ensures |Split(s)| == 1 <==> ColonFree(s)
    ensures ColonFree(s) ==> Split(s) == [s]
  {
    if s != "" {
      SplitCount(s[1..]);
      assert s == [s[0]] + s[1..];
    }
  }

  lemma SplitFour(a: string, b: string, c: string, d: string)
    ensures Split(a + ":" + b + ":" + c + ":" + d) == Split(a) + Split(b) + Split(c) + Split(d)
  {
    SplitAtColon(a, b);
    SplitAtColon(a + ":" + b, c);
    SplitAtColon(a + ":" + b + ":" + c, d);
  }

  lemma SplitEight(a: string, b: string, c: string, d: string, e: string, f: string, g: string, h: string)
    ensures Split(a + ":" + b + ":" + c + ":" + d + ":" + e + ":" + f + ":" + g + ":" + h)
         == Split(a) + Split(b) + Split(c) + Split(d) + Split(e) + Split(f) + Split(g) + Split(h)
  {
    var abcd := a + ":" + b + ":" + c + ":" + d;
    SplitFour(a, b, c, d);
    SplitAtColon(abcd, e);
    SplitAtColon(abcd + ":" + e, f);
    SplitAtColon(abcd + ":" + e + ":" + f, g);
    SplitAtColon(abcd + ":" + e + ":" + f + ":" + g, h);
  }

  /** The key is its eight parts with colons between. */
  lemma KeyIsGlued(f: Fields)
    ensures MakeCacheKey(f)
         == "faim" + ":" + "query" + ":" + f.tenant + ":" + f.graph + ":" + ("v" + Decimal(f.version))
            + ":" + f.hash + ":" + f.profile + ":" + ("k" + Decimal(f.k))
  {
    GlueLiterals(f.tenant, f.graph, Decimal(f.version), f.hash, f.profile, Decimal(f.k));
  }

  lemma GlueLiterals(t: string, g: string, v: string, h: string, p: string, k: string)
    ensures "faim:query:" + t + ":" + g + ":v" + v + ":" + h + ":" + p + ":k" + k
         == "faim" + ":" + "query" + ":" + t + ":" + g + ":" + ("v" + v) + ":" + h + ":" + p + ":" + ("k" + k)
  {
    assert "faim:query:" == "faim" + ":" + "query" + ":";
    assert ":v" == ":" + "v" && ":k" == ":" + "k";
    var a := "faim:query:" + t + ":" + g;
    assert a + ":v" + v == a + ":" + ("v" + v);
    var b := a + ":v" + v + ":" + h + ":" + p;
    assert b + ":k" + k == b + ":" + ("k" + k);
  }

  lemma KeyParts(f: Fields)
    ensures Split(MakeCacheKey(f))
         == ["faim"] + ["query"] + Split(f.tenant) + Split(f.graph)
            + ["v" + Decimal(f.version)] + Split(f.hash) + Split(f.profile) + ["k" + Decimal(f.k)]
  {
    var v, k := "v" + Decimal(f.version), "k" + Decimal(f.k);
    KeyIsGlued(f);
    SplitEight("faim", "query", f.tenant, f.graph, v, f.hash, f.profile, k);
    DecimalRoundTrip(f.version);
    DecimalRoundTrip(f.k);
    SplitCount(v);
    SplitCount(k);
    SplitCount("faim");
    SplitCount("query");
  }

  lemma EightParts(a: string, b: string, t: seq<string>, g: seq<string>, v: string,
                   h: seq<string>, p: seq<string>, k: string)
    requires |t| > 0 && |g| > 0 && |h| > 0 && |p| > 0
    ensures var parts := [a] + [b] + t + g + [v] + h + p + [k];
            && (|parts| == 8 <==> |t| == |g| == |h| == |p| == 1)
            && (|parts| == 8 ==> parts == [a, b, t[0], g[0], v, h[0], p[0], k])
  {}

  lemma KeyHasPrefix(f: Fields)
    ensures PREFIX <= MakeCacheKey(f)
  {}

  lemma MarkedNumber(mark: char, n: int)
    ensures ParseInt(Tail([mark] + Decimal(n))) == Some(n)
  {
    DecimalRoundTrip(n);
    assert Tail([mark] + Decimal(n)) == Decimal(n);
  }

  lemma EightFields(f: Fields)
    ensures ParseParts(["faim", "query", f.tenant, f.graph, "v" + Decimal(f.version),
                        f.hash, f.profile, "k" + Decimal(f.k)]) == Some(f)
  {
    MarkedNumber('v', f.version);
    MarkedNumber('k', f.k);
  }

  /** Parsing undoes making for fields without colons, and rejects every other key. */
  lemma KeyRoundTrip(f: Fields)
    ensures ParseCacheKey(MakeCacheKey(f)) == if Clean(f) then Some(f) else None
  {
    KeyParts(f);
    SplitCount(f.tenant);
    SplitCount(f.graph);
    SplitCount(f.hash);
    SplitCount(f.profile);
    EightParts("faim", "query", Split(f.tenant), Split(f.graph), "v" + Decimal(f.version),
               Split(f.hash), Split(f.profile), "k" + Decimal(f.k));
    EightFields(f);
    KeyHasPrefix(f);
  }

  /** Fields without colons share their key with no other fields at all. */
  lemma KeyInjective(f: Fields, g: Fields)
    requires Clean(f) && MakeCacheKey(f) == MakeCacheKey(g)
    ensures f == g
  {
    KeyRoundTrip(f);
    KeyRoundTrip(g);
  }

  // ---- the colons that collide

  /** Neighbouring fields enter the key only through the text they form together. */
  lemma NeighboursGlue(f: Fields, g: Fields)
    requires f.version == g.version && f.k == g.k
    requires f.tenant + ":" + f.graph == g.tenant + ":" + g.graph
    requires f.hash + ":" + f.profile == g.hash + ":" + g.profile
    ensures MakeCacheKey(f) == MakeCacheKey(g)
  {
    KeyOfPairs(f);
    KeyOfPairs(g);
  }

  lemma KeyOfPairs(f: Fields)
    ensures MakeCacheKey(f)
         == PREFIX + (f.tenant + ":" + f.graph) + ":v" + Decimal(f.version) + ":"
            + (f.hash + ":" + f.profile) + ":k" + Decimal(f.k)
  {
    var head := PREFIX + f.tenant + ":" + f.graph;
    assert head == PREFIX + (f.tenant + ":" + f.graph);
    var upTo := head + ":v" + Decimal(f.version) + ":";
    assert upTo + f.hash + ":" + f.profile == upTo + (f.hash + ":" + f.profile);
  }

  /** Text with a colon between two fields can be cut in another place. */
  lemma CutElsewhere(left: string, right: string) returns (l: string, r: string)
    requires !ColonFree(left) || !ColonFree(right)
    ensures l + ":" + r == left + ":" + right && l != left
  {
    var glued := left + ":" + right;
    if !ColonFree(left) {
      var i :| 0 <= i < |left| && left[i] == ':';
      l, r := left[..i], left[i + 1..] + ":" + right;
      assert left == left[..i] + ":" + left[i + 1..];
    } else {
      var i :| 0 <= i < |right| && right[i] == ':';
      l, r := left + ":" + right[..i], right[i + 1..];
      assert right == right[..i] + ":" + right[i + 1..];
    }
  }

  /** The text with a colon moved into the neighbouring field makes the same key. */
  lemma ColonCollides(f: Fields) returns (g: Fields)
    requires !Clean(f)
    ensures g != f && MakeCacheKey(g) == MakeCacheKey(f)
  {
    if !ColonFree(f.tenant) || !ColonFree(f.graph) {
      var l, r := CutElsewhere(f.tenant, f.graph);
      g := f.(tenant := l, graph := r);
    } else {
      var l, r := CutElsewhere(f.hash, f.profile);
      g := f.(hash := l, profile := r);
    }
    NeighboursGlue(g, f);
  }

  /** A key belongs to its fields alone exactly when none of them contains a colon. */
  lemma KeyUniqueIffClean(f: Fields)
    ensures (forall g :: MakeCacheKey(g) == MakeCacheKey(f) ==> g == f) <==> Clean(f)
  {
    if Clean(f) {
      forall g | MakeCacheKey(g) == MakeCacheKey(f) ensures g == f { KeyInjective(f, g); }
    } else {
      var g := ColonCollides(f);
    }
  }

  /** A key, spelled out. */
  lemma KeyExample()
    ensures MakeCacheKey(Fields("t", "g", 3, "h", "p", 200)) == "faim:query:t:g:v3:h:p:k200"
  {
    assert Decimal(3) == "3";
    assert Decimal(2) == "2" && Decimal(20) == "20" && Decimal(200) == "200";
  }

  /** What is accepted: the prefix, eight parts between colons, and after their first character
      two integers. */
  lemma ParseMeaning(key: string)
    ensures ParseCacheKey(key).Some? <==>
              && |key| >= 11 && key[..11] == "faim:query:" && |Split(key)| == 8
              && ParseInt(Tail(Split(key)[4])).Some? && ParseInt(Tail(Split(key)[7])).Some?
  {
    assert PREFIX == "faim:query:";
  }
}
