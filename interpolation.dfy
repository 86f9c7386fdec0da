/**
 * `Logger::interpolate`: a replacement table is built from the context
 * entries whose value is not an array, keyed by the placeholder `{{ key }}`,
 * and then applied with PHP's `strtr` in its array form.
 */
module Interpolation {

  /** A context value: a scalar (given by its string form) or a nested array. */
  datatype CtxValue = Scalar(text: string) | Array(entries: seq<(string, CtxValue)>)

  /** A log context: string keys to values. */
  type Context = map<string, CtxValue>

  /** The placeholder a context key is written as in a message. */
  function Placeholder(key: string): (p: string)
    ensures |p| == |key| + 6
  {
    "{{ " + key + " }}"
  }

  lemma PlaceholderInjective(a: string, b: string)
    ensures Placeholder(a) == Placeholder(b) ==> a == b
  {
    KeyOfPlaceholder(a);
    KeyOfPlaceholder(b);
  }

  // ---------------------------------------------------------------------
  // strtr with an array of replacement pairs.

  /**
   * The length of the longest key of `rep` that is a non-empty prefix of
   * `s[..n]`, or 0 when there is none: `strtr` tries the longest key first.
   */
  function LongestKeyAt(s: string, rep: map<string, string>, n: nat): (m: nat)
    requires n <= |s|
    ensures m <= n
    ensures m > 0 ==> s[..m] in rep
    ensures forall j :: m < j <= n ==> s[..j] !in rep
    decreases n
  {
    if n == 0 then 0 else if s[..n] in rep then n else LongestKeyAt(s, rep, n - 1)
  }

  /** One step of the left-to-right scan: a character passed through, or a matched key. */
  datatype Piece = Kept(c: char) | Replaced(key: string)

  /**
   * The pieces `strtr` cuts its subject into: at each position the longest
   * matching key is taken and the scan resumes after it; where no key
   * matches, one character is passed through.
   */
  function Scan(s: string, rep: map<string, string>): (ps: seq<Piece>)
    ensures forall i :: 0 <= i < |ps| && ps[i].Replaced? ==> ps[i].key in rep
    decreases |s|
  {
    if s == [] then []
    else
      var m := LongestKeyAt(s, rep, |s|);
      if m > 0 then [Replaced(s[..m])] + Scan(s[m..], rep)
      else [Kept(s[0])] + Scan(s[1..], rep)
  }

  /** The input text the pieces cover. */
  function Source(ps: seq<Piece>): string
    decreases |ps|
  {
    if ps == [] then ""
    else (match ps[0] case Kept(c) => [c] case Replaced(k) => k) + Source(ps[1..])
  }

  /** The output text: kept characters as they are, each matched key as its replacement. */
  function Render(ps: seq<Piece>, rep: map<string, string>): string
    requires forall i :: 0 <= i < |ps| && ps[i].Replaced? ==> ps[i].key in rep
    decreases |ps|
  {
    if ps == [] then ""
    else (match ps[0] case Kept(c) => [c] case Replaced(k) => rep[k]) + Render(ps[1..], rep)
  }

  /** `strtr($s, $rep)`. */
  function Strtr(s: string, rep: map<string, string>): string {
    Render(Scan(s, rep), rep)
  }

  /** `p` occurs in `s` starting at position `i`. */
  predicate OccursAt(s: string, p: string, i: nat) {
    i + |p| <= |s| && s[i..i + |p|] == p
  }

  lemma NotOccursAt(s: string, p: string, i: nat)
    requires i < |s| && p != [] && s[i] != p[0]
    ensures !OccursAt(s, p, i)
  {
    if i + |p| <= |s| {
      assert s[i..i + |p|][0] == s[i];
    }
  }

  /** No key of `rep` occurs anywhere in `s`. */
  predicate NoKeyOccurs(s: string, rep: map<string, string>) {
    forall i, j :: 0 <= i < j <= |s| ==> s[i..j] !in rep
  }

  /** The scan cuts the input without losing, adding or reordering anything. */
  lemma {:induction false} ScanCoversInput(s: string, rep: map<string, string>)
    ensures Source(Scan(s, rep)) == s
    decreases |s|
  {
    if s != [] {
      var m := LongestKeyAt(s, rep, |s|);
      if m > 0 {
        ScanCoversInput(s[m..], rep);
        assert s == s[..m] + s[m..];
      } else {
        ScanCoversInput(s[1..], rep);
        assert s == [s[0]] + s[1..];
      }
    }
  }

  lemma {:induction false} NoKeyNoMatch(s: string, rep: map<string, string>, n: nat)
    requires NoKeyOccurs(s, rep) && n <= |s|
    ensures LongestKeyAt(s, rep, n) == 0
    decreases n
  {
    if n > 0 {
      assert s[0..n] == s[..n];
      NoKeyNoMatch(s, rep, n - 1);
    }
  }

  /** A subject in which no key occurs comes back unchanged. */
  lemma {:induction false} StrtrNoKey(s: string, rep: map<string, string>)
    requires NoKeyOccurs(s, rep)
    ensures Strtr(s, rep) == s
    decreases |s|
  {
    if s != [] {
      NoKeyNoMatch(s, rep, |s|);
      assert NoKeyOccurs(s[1..], rep) by {
        forall i, j | 0 <= i < j <= |s[1..]| ensures s[1..][i..j] !in rep {
          assert s[1..][i..j] == s[i + 1..j + 1];
        }
      }
      StrtrNoKey(s[1..], rep);
      assert s == [s[0]] + s[1..];
    }
  }

  /** With no replacement pairs, `strtr` returns its subject. */
  lemma StrtrEmpty(s: string)
    ensures Strtr(s, map[]) == s
  {
    StrtrNoKey(s, map[]);
  }

  /**
   * A matched key is replaced by its value, and the scan resumes after the
   * key in the subject: the inserted value is never scanned again, whatever
   * keys it contains.
   */
  lemma StrtrNoRescan(k: string, t: string, rep: map<string, string>)
    requires k in rep && k != ""
    requires forall j :: |k| < j <= |k + t| ==> (k + t)[..j] !in rep
    ensures Strtr(k + t, rep) == rep[k] + Strtr(t, rep)
  {
    var s := k + t;
    var m := LongestKeyAt(s, rep, |s|);
    assert s[..|k|] == k;
    assert m == |k|;
    assert s[m..] == t;
  }

  // ---------------------------------------------------------------------
  // The replacement table interpolate builds.

  /** The pairs `interpolate` hands to `strtr`: `{{ key }}` to the value, for every non-array value. */
  function Replacements(ctx: Context): (rep: map<string, string>)
    ensures forall k :: k in ctx && ctx[k].Scalar? ==> Placeholder(k) in rep && rep[Placeholder(k)] == ctx[k].text
    ensures forall p :: p in rep ==> exists k :: k in ctx && ctx[k].Scalar? && p == Placeholder(k)
  {
    map p | p in (set k | k in ctx && ctx[k].Scalar? :: Placeholder(k)) :: ctx[KeyOf(p)].text
  }

  /** The key a placeholder names. */
  function KeyOf(p: string): string
    requires |p| >= 6
  {
    p[3..|p| - 3]
  }

  lemma KeyOfPlaceholder(k: string)
    ensures KeyOf(Placeholder(k)) == k
  {
  }

  /** The message with its placeholders filled in from the context. */
  function Interpolated(message: string, ctx: Context): string {
    Strtr(message, Replacements(ctx))
  }

  /** `interpolate($message, $context)`: the foreach that fills `$replace`, then `strtr`. */
  method Interpolate(message: string, context: Context) returns (r: string)
    ensures r == Interpolated(message, context)
  {
    var replace: map<string, string> := map[];
    var todo := context.Keys;
    while todo != {}
      invariant todo <= context.Keys
      invariant forall k :: k in context && k !in todo && context[k].Scalar? ==>
                  Placeholder(k) in replace && replace[Placeholder(k)] == context[k].text
      invariant forall p :: p in replace ==> exists k :: k in context && k !in todo && context[k].Scalar? && p == Placeholder(k)
      decreases |todo|
    {
      var key :| key in todo;
      if context[key].Scalar? {
        forall k | k in context && k !in todo && context[k].Scalar?
          ensures Placeholder(k) != Placeholder(key)
        {
          PlaceholderInjective(k, key);
        }
        replace := replace[Placeholder(key) := context[key].text];
      }
      todo := todo - {key};
    }
    assert replace == Replacements(context) by {
      var rep := Replacements(context);
      forall p | p in rep ensures p in replace && replace[p] == rep[p] {
        var k :| k in context && context[k].Scalar? && p == Placeholder(k);
      }
      forall p | p in replace ensures p in rep {
        var k :| k in context && context[k].Scalar? && p == Placeholder(k);
      }
    }
    r := Strtr(message, replace);
  }

  // ---------------------------------------------------------------------
  // What interpolation does to a message.

  /**
   * Every substitution interpolation makes is of a placeholder `{{ key }}`
   * whose context value is a scalar, and it emits that scalar's text;
   * everything else of the message is passed through in order.
   */
  lemma InterpolateOnlyScalarPlaceholders(message: string, ctx: Context)
    ensures Source(Scan(message, Replacements(ctx))) == message
    ensures forall i :: 0 <= i < |Scan(message, Replacements(ctx))| && Scan(message, Replacements(ctx))[i].Replaced? ==>
              exists k :: k in ctx && ctx[k].Scalar? && Scan(message, Replacements(ctx))[i].key == Placeholder(k) &&
                          Replacements(ctx)[Placeholder(k)] == ctx[k].text
    ensures Interpolated(message, ctx) == Render(Scan(message, Replacements(ctx)), Replacements(ctx))
  {
    ScanCoversInput(message, Replacements(ctx));
  }

  /** A message holding no placeholder of a scalar context entry is returned unchanged. */
  lemma InterpolateUnchanged(message: string, ctx: Context)
    requires forall k, i :: k in ctx && ctx[k].Scalar? && 0 <= i <= |message| ==> !OccursAt(message, Placeholder(k), i)
    ensures Interpolated(message, ctx) == message
  {
    var rep := Replacements(ctx);
    forall i, j | 0 <= i < j <= |message| ensures message[i..j] !in rep {
      if message[i..j] in rep {
        var k :| k in ctx && ctx[k].Scalar? && message[i..j] == Placeholder(k);
        assert OccursAt(message, Placeholder(k), i);
      }
    }
    StrtrNoKey(message, rep);
  }

  /** A context holding only arrays leaves every message as it is. */
  lemma InterpolateArraysOnly(message: string, ctx: Context)
    requires forall k :: k in ctx ==> ctx[k].Array?
    ensures Interpolated(message, ctx) == message
  {
    assert Replacements(ctx) == map[];
    StrtrEmpty(message);
  }

  /** A leading character at which no key starts is passed through. */
  lemma StrtrKeep(c: char, t: string, rep: map<string, string>)
    requires forall j :: 0 < j <= |[c] + t| ==> ([c] + t)[..j] !in rep
    ensures Strtr([c] + t, rep) == [c] + Strtr(t, rep)
  {
    var s := [c] + t;
    assert LongestKeyAt(s, rep, |s|) == 0;
    assert s[1..] == t;
  }

  /** With a single pair, a character at which that key does not start is passed through. */
  lemma StrtrKeepSingle(c: char, t: string, key: string, value: string)
    requires |[c] + t| < |key| || ([c] + t)[..|key|] != key
    ensures Strtr([c] + t, map[key := value]) == [c] + Strtr(t, map[key := value])
  {
    var s := [c] + t;
    assert forall j :: 0 < j <= |s| ==> s[..j] !in map[key := value];
    StrtrKeep(c, t, map[key := value]);
  }

  lemma SingleReplacement(k: string, v: string)
    ensures Replacements(map[k := Scalar(v)]) == map[Placeholder(k) := v]
  {
    var ctx := map[k := Scalar(v)];
    var rep := Replacements(ctx);
    forall p | p in rep ensures p == Placeholder(k) {
      var k' :| k' in ctx && ctx[k'].Scalar? && p == Placeholder(k');
    }
  }

  /** With a single pair, text before the one occurrence of its key is kept and the key is replaced. */
  lemma {:induction false} StrtrSingleAfter(pre: string, key: string, v: string)
    requires key != ""
    requires forall i :: 0 <= i < |pre| ==> !OccursAt(pre + key, key, i)
    ensures Strtr(pre + key, map[key := v]) == pre + v
    decreases |pre|
  {
    var rep := map[key := v];
    if pre == [] {
      assert pre + key == key + "";
      StrtrNoRescan(key, "", rep);
      assert Strtr("", rep) == "";
    } else {
      var s, t := pre + key, pre[1..] + key;
      assert s == [pre[0]] + t;
      assert !OccursAt(s, key, 0);
      StrtrKeepSingle(pre[0], t, key, v);
      forall i | 0 <= i < |pre[1..]| ensures !OccursAt(t, key, i) {
        assert !OccursAt(s, key, i + 1);
        if i + |key| <= |t| {
          assert t[i..i + |key|] == s[i + 1..i + 1 + |key|];
        }
      }
      StrtrSingleAfter(pre[1..], key, v);
      assert pre == [pre[0]] + pre[1..];
    }
  }

  /** `log("info", "hi {{ k }}", ["k" => "v"])` reads back as "hi v". */
  lemma InterpolateExample()
    ensures Interpolated("hi {{ k }}", map["k" := Scalar("v")]) == "hi v"
  {
    SingleReplacement("k", "v");
    assert Placeholder("k") == "{{ k }}";
    var s := "hi " + "{{ k }}";
    assert s[0] == 'h' && s[1] == 'i' && s[2] == ' ';
    NotOccursAt(s, "{{ k }}", 0);
    NotOccursAt(s, "{{ k }}", 1);
    NotOccursAt(s, "{{ k }}", 2);
    StrtrSingleAfter("hi ", "{{ k }}", "v");
    assert s == "hi {{ k }}";
  }

  /** A placeholder whose context value is an array stays in the message literally. */
  lemma InterpolateArrayKept()
    ensures Interpolated("{{ x }}", map["x" := Array([("0", Scalar("1")), ("1", Scalar("2"))])]) == "{{ x }}"
  {
    InterpolateArraysOnly("{{ x }}", map["x" := Array([("0", Scalar("1")), ("1", Scalar("2"))])]);
  }

  /**
   * Text a substitution inserts is not substituted again: with `a` mapped to
   * "{{ b }}" and `b` to "x", the message "{{ a }}" becomes "{{ b }}", not "x".
   */
  lemma InterpolateNoRescanExample()
    ensures Interpolated("{{ a }}", map["a" := Scalar("{{ b }}"), "b" := Scalar("x")]) == "{{ b }}"
    ensures Interpolated("{{ b }}", map["a" := Scalar("{{ b }}"), "b" := Scalar("x")]) == "x"
  {
    var ctx := map["a" := Scalar("{{ b }}"), "b" := Scalar("x")];
    var rep := Replacements(ctx);
    assert Placeholder("a") == "{{ a }}" && Placeholder("b") == "{{ b }}";
    assert "{{ a }}" + "" == "{{ a }}" && "{{ b }}" + "" == "{{ b }}";
    StrtrNoRescan("{{ a }}", "", rep);
    StrtrNoRescan("{{ b }}", "", rep);
    assert Strtr("", rep) == "";
  }
}
