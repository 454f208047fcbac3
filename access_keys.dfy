/** `parseAccessKeys` and `resolveAccessKeys` (auto_fill.js): an access-key
    pool read from the command line, the environment or the configuration
    file, split on `,` `;` and newlines, trimmed, and de-duplicated in
    first-occurrence order, the way `[...new Set(keys)]` does. */
module AccessKeys {
  import opened Text

  /** A raw key value as the script receives it: absent (or any falsy
      value, including the empty string), a string, or an array whose items
      are parsed in turn. */
  datatype KeySource = Absent | Text(value: string) | List(items: seq<KeySource>)

  /** The plural and the singular setting of one origin, such as
      `--keys` and `--key`, or `accessKeys` and `accessKey`. */
  datatype KeyPair = KeyPair(keys: KeySource, key: KeySource)

  /** The character class `[,\n;]`. */
  predicate IsSeparator(c: char) {
    c == ',' || c == '\n' || c == ';'
  }

  predicate NoSeparator(s: string) {
    forall c :: c in s ==> !IsSeparator(c)
  }

  /** `s.split(/[,\n;]/)`: the pieces between separators, empty ones kept. */
  function Split(s: string): (r: seq<string>)
    ensures |r| >= 1
    ensures forall i :: 0 <= i < |r| ==> NoSeparator(r[i])
  {
    if s == [] then [[]]
    else
      var rest := Split(s[1..]);
      if IsSeparator(s[0]) then [[]] + rest
      else [[s[0]] + rest[0]] + rest[1..]
  }

  /** The separator characters of `s`, in order. */
  function Separators(s: string): (r: string)
    ensures forall c :: c in r ==> IsSeparator(c)
  {
    if s == [] then []
    else (if IsSeparator(s[0]) then [s[0]] else []) + Separators(s[1..])
  }

  /** Splitting loses nothing: each piece is separated from the next by one
      separator, as `Separators` lists them. */
  lemma {:induction false} SplitCount(s: string)
    ensures |Split(s)| == |Separators(s)| + 1
  {
    if s != [] {
      SplitCount(s[1..]);
    }
  }

  /** Pieces interleaved with separators. */
  function Join(pieces: seq<string>, seps: string): string
    requires |pieces| == |seps| + 1
  {
    if seps == [] then pieces[0]
    else pieces[0] + [seps[0]] + Join(pieces[1..], seps[1..])
  }

  /** The round trip: joining the pieces back with their separators gives
      the input string. */
  lemma {:induction false} SplitJoin(s: string)
    ensures |Split(s)| == |Separators(s)| + 1
    ensures Join(Split(s), Separators(s)) == s
  {
    SplitCount(s);
    if s != [] {
      SplitJoin(s[1..]);
      var rest := Split(s[1..]);
      if IsSeparator(s[0]) {
        assert Split(s) == [[]] + rest;
        assert Separators(s) == [s[0]] + Separators(s[1..]);
        assert Join(Split(s), Separators(s)) == [] + [s[0]] + Join(rest, Separators(s[1..]));
        assert s == [s[0]] + s[1..];
      } else {
        assert Separators(s) == Separators(s[1..]);
        if Separators(s[1..]) == [] {
          assert Join(Split(s), Separators(s)) == [s[0]] + rest[0];
        } else {
          var seps := Separators(s[1..]);
          assert Join(rest, seps) == rest[0] + [seps[0]] + Join(rest[1..], seps[1..]);
          assert Join(Split(s), Separators(s)) == ([s[0]] + rest[0]) + [seps[0]] + Join(rest[1..], seps[1..]);
        }
        assert s == [s[0]] + s[1..];
      }
    }
  }

  /** What the parsed list may contain: trimmed, non-empty, free of separators. */
  predicate IsAccessKey(k: string) {
    k != [] && Trimmed(k) && NoSeparator(k)
  }

  /** `.map((key) => key.trim()).filter(Boolean)`. */
  function KeysOf(pieces: seq<string>): (r: seq<string>)
    ensures |r| <= |pieces|
    ensures forall k :: k in r ==> k != [] && Trimmed(k) && exists p :: p in pieces && Trim(p) == k
    ensures forall p :: p in pieces && Trim(p) != [] ==> Trim(p) in r
  {
    if pieces == [] then []
    else
      var t := Trim(pieces[0]);
      (if t == [] then [] else [t]) + KeysOf(pieces[1..])
  }

  /** `parseAccessKeys(rawValue)`. */
  function ParseAccessKeys(v: KeySource): (r: seq<string>)
    ensures forall k :: k in r ==> IsAccessKey(k)
    ensures v.Absent? ==> r == []
    decreases v, 1
  {
    match v
    case Absent => []
    case Text(s) =>
      var pieces := Split(s);
      var keys := KeysOf(pieces);
      assert forall k :: k in keys ==> NoSeparator(k) by {
        forall k | k in keys
          ensures NoSeparator(k)
        {
          var p :| p in pieces && Trim(p) == k;
          TrimChars(p);
        }
      }
      keys
    case List(items) => ParseAll(items)
  }

  /** `rawValue.flatMap((item) => parseAccessKeys(item))`. */
  function ParseAll(items: seq<KeySource>): (r: seq<string>)
    ensures forall k :: k in r ==> IsAccessKey(k)
    decreases items, 0
  {
    if items == [] then [] else ParseAccessKeys(items[0]) + ParseAll(items[1..])
  }

  /** A string keeps exactly its trimmed non-empty pieces. */
  lemma ParseTextMembers(s: string, k: string)
    ensures k in ParseAccessKeys(Text(s)) <==> k != [] && exists p :: p in Split(s) && Trim(p) == k
  {
  }

  /** Flattening distributes over concatenation of item lists. */
  lemma {:induction false} ParseAllConcat(a: seq<KeySource>, b: seq<KeySource>)
    ensures ParseAll(a + b) == ParseAll(a) + ParseAll(b)
  {
    if a == [] {
      assert a + b == b;
    } else {
      assert (a + b)[1..] == a[1..] + b;
      ParseAllConcat(a[1..], b);
    }
  }

  predicate NoDuplicates(xs: seq<string>) {
    forall i, j :: 0 <= i < j < |xs| ==> xs[i] != xs[j]
  }

  /** The position of the first occurrence of `x` in `xs`. */
  function FirstIndex(xs: seq<string>, x: string): (i: nat)
    requires x in xs
    ensures i < |xs| && xs[i] == x
    ensures forall j :: 0 <= j < i ==> xs[j] != x
  {
    if xs[0] == x then 0 else 1 + FirstIndex(xs[1..], x)
  }

  /** `[...new Set(xs)]`: the distinct elements in first-occurrence order. */
  function Dedupe(xs: seq<string>): (r: seq<string>)
    ensures NoDuplicates(r)
    ensures forall x :: x in r <==> x in xs
    ensures |r| <= |xs|
  {
    if xs == [] then []
    else
      var d := Dedupe(xs[..|xs| - 1]);
      var x := xs[|xs| - 1];
      assert xs == xs[..|xs| - 1] + [x];
      if x in d then d else d + [x]
  }

  /** The order `new Set` keeps: distinct results appear in the order of
      their first occurrences in the input. */
  lemma {:induction false} DedupeOrder(xs: seq<string>)
    ensures forall i, j :: 0 <= i < j < |Dedupe(xs)| ==>
      FirstIndex(xs, Dedupe(xs)[i]) < FirstIndex(xs, Dedupe(xs)[j])
  {
    if xs != [] {
      var init := xs[..|xs| - 1];
      var x := xs[|xs| - 1];
      assert xs == init + [x];
      DedupeOrder(init);
      var d := Dedupe(init);
      var r := Dedupe(xs);
      assert r == if x in d then d else d + [x];
      forall i, j | 0 <= i < j < |r|
        ensures FirstIndex(xs, r[i]) < FirstIndex(xs, r[j])
      {
        assert r[i] == d[i] && r[i] in init;
        FirstIndexPrefix(init, [x], r[i]);
        if j < |d| {
          assert r[j] == d[j];
          FirstIndexPrefix(init, [x], d[j]);
        } else {
          FirstIndexLast(init, x);
        }
      }
    }
  }

  lemma {:induction false} FirstIndexPrefix(a: seq<string>, b: seq<string>, y: string)
    requires y in a
    ensures FirstIndex(a + b, y) == FirstIndex(a, y)
  {
    if a[0] != y {
      assert (a + b)[1..] == a[1..] + b;
      FirstIndexPrefix(a[1..], b, y);
    }
  }

  lemma FirstIndexLast(a: seq<string>, x: string)
    requires x !in a
    ensures FirstIndex(a + [x], x) == |a|
  {
  }

  /** A list without duplicates is its own de-duplication. */
  lemma {:induction false} DedupeOfDistinct(xs: seq<string>)
    requires NoDuplicates(xs)
    ensures Dedupe(xs) == xs
  {
    if xs != [] {
      var init := xs[..|xs| - 1];
      assert NoDuplicates(init);
      DedupeOfDistinct(init);
      assert xs[|xs| - 1] !in init;
      assert xs == init + [xs[|xs| - 1]];
    }
  }

  /** One origin's keys: the plural setting's first, then the singular one's. */
  function OriginKeys(p: KeyPair): (r: seq<string>)
    ensures forall k :: k in r ==> IsAccessKey(k)
  {
    ParseAccessKeys(p.keys) + ParseAccessKeys(p.key)
  }

  /** `resolveAccessKeys`: the command line wins over the environment,
      which wins over the configuration file; the chosen origin is
      de-duplicated. */
  function ResolveAccessKeys(cli: KeyPair, env: KeyPair, config: KeyPair): (r: seq<string>)
    ensures NoDuplicates(r)
    ensures forall k :: k in r ==> IsAccessKey(k)
    ensures r == [] <==> OriginKeys(cli) == [] && OriginKeys(env) == [] && OriginKeys(config) == []
    ensures OriginKeys(cli) != [] ==> forall k :: k in r <==> k in OriginKeys(cli)
    ensures OriginKeys(cli) == [] && OriginKeys(env) != [] ==>
      forall k :: k in r <==> k in OriginKeys(env)
    ensures OriginKeys(cli) == [] && OriginKeys(env) == [] ==>
      forall k :: k in r <==> k in OriginKeys(config)
  {
    var cliKeys := OriginKeys(cli);
    if |cliKeys| > 0 then Dedupe(cliKeys)
    else
      var envKeys := OriginKeys(env);
      if |envKeys| > 0 then Dedupe(envKeys)
      else Dedupe(OriginKeys(config))
  }

  /** Priority: once the command line supplies a key, neither the
      environment nor the configuration file has any influence. */
  lemma CliOverrides(cli: KeyPair, env: KeyPair, config: KeyPair, env': KeyPair, config': KeyPair)
    requires OriginKeys(cli) != []
    ensures ResolveAccessKeys(cli, env, config) == ResolveAccessKeys(cli, env', config')
  {
  }

  /** Priority: without command-line keys, environment keys shadow the
      configuration file, and the command line's keys are not looked at. */
  lemma EnvOverridesConfig(cli: KeyPair, env: KeyPair, config: KeyPair, cli': KeyPair, config': KeyPair)
    requires OriginKeys(cli) == [] && OriginKeys(cli') == [] && OriginKeys(env) != []
    ensures ResolveAccessKeys(cli, env, config) == ResolveAccessKeys(cli', env, config')
  {
  }
}
