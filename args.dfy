/**
 * ParseParameters and the typed lookups GetArg / GetBoolArg.
 *
 * Parsing is two passes over the argument vector: the first collects every
 * option token (the program name at index 0 is skipped) into a key -> value
 * map where the last occurrence of a key wins; the second resolves each
 * "-noX" key against "-X": when "-X" was given too, "-noX" is dropped and
 * "-X" keeps its own value whatever the order; otherwise "-X" is added with
 * the negation of the "-noX" value. Lookups return the caller's default
 * exactly when the key is absent.
 */
module Args {
  import opened Flags
  import opened Numbers

  /** The parsed settings: a key (with its leading dash) to its value. */
  type ArgMap = map<string, string>

  // ---------------------------------------------------------------------
  // First pass: collecting the options, word by word

  /** The tokenizer's reading o of a word is an option with key k. */
  predicate HasKey(o: Option<Flag>, k: string) {
    o.Some? && o.value.key == k
  }

  /** Some word read as fs is an option with key k. */
  ghost predicate Occurs(fs: seq<Option<Flag>>, k: string) {
    exists i :: 0 <= i < |fs| && HasKey(fs[i], k)
  }

  /** No word after position i is an option with key k. */
  ghost predicate LastAt(fs: seq<Option<Flag>>, i: nat, k: string) {
    forall j :: i < j < |fs| ==> !HasKey(fs[j], k)
  }

  /** The map after one more word: an option sets its key, anything else is skipped. */
  function Insert(m: ArgMap, o: Option<Flag>): ArgMap {
    match o
    case None => m
    case Some(f) => m[f.key := f.value]
  }

  /** The map the first loop builds from the words read as fs. */
  function Collect(fs: seq<Option<Flag>>): ArgMap {
    if fs == [] then map[] else Insert(Collect(fs[..|fs| - 1]), fs[|fs| - 1])
  }

  /** A key is collected exactly when some word carries it. */
  lemma {:induction false} CollectDomain(fs: seq<Option<Flag>>, k: string)
    ensures k in Collect(fs) <==> Occurs(fs, k)
  {
    if fs != [] {
      var init := fs[..|fs| - 1];
      CollectDomain(init, k);
      if Occurs(init, k) {
        var i :| 0 <= i < |init| && HasKey(init[i], k);
        assert fs[i] == init[i];
      }
      if Occurs(fs, k) && !HasKey(fs[|fs| - 1], k) {
        var i :| 0 <= i < |fs| && HasKey(fs[i], k);
        assert init[i] == fs[i];
      }
    }
  }

  /** The collected value of a key is the value of its last occurrence. */
  lemma {:induction false} CollectLastWins(fs: seq<Option<Flag>>, i: nat, k: string, v: string)
    requires i < |fs| && fs[i] == Some(Flag(k, v))
    requires LastAt(fs, i, k)
    ensures k in Collect(fs) && Collect(fs)[k] == v
  {
    var init := fs[..|fs| - 1];
    if i < |fs| - 1 {
      assert init[i] == fs[i];
      assert LastAt(init, i, k) by {
        forall j | i < j < |init| ensures !HasKey(init[j], k) {
          assert init[j] == fs[j];
        }
      }
      CollectLastWins(init, i, k, v);
    }
  }

  /** Collecting one more word inserts its option into the map collected so far. */
  lemma CollectAppend(fs: seq<Option<Flag>>, o: Option<Flag>)
    ensures Collect(fs + [o]) == Insert(Collect(fs), o)
  {
    assert (fs + [o])[..|fs|] == fs;
  }

  /** The readings fs without the options of key n. */
  function Unset(fs: seq<Option<Flag>>, n: string): seq<Option<Flag>> {
    if fs == [] then []
    else
      var last := fs[|fs| - 1];
      Unset(fs[..|fs| - 1], n) + (if HasKey(last, n) then [] else [last])
  }

  /** Dropping the options of key n removes n and leaves every other key q as it was. */
  lemma {:induction false} CollectUnset(fs: seq<Option<Flag>>, n: string, q: string)
    ensures n !in Collect(Unset(fs, n))
    ensures q != n ==> (q in Collect(Unset(fs, n)) <==> q in Collect(fs))
    ensures q != n && q in Collect(fs) ==> Collect(Unset(fs, n))[q] == Collect(fs)[q]
  {
    if fs != [] {
      var init := fs[..|fs| - 1];
      var last := fs[|fs| - 1];
      CollectUnset(init, n, q);
      var w := Unset(init, n);
      if !HasKey(last, n) {
        assert Unset(fs, n) == w + [last];
        CollectAppend(w, last);
      } else {
        assert Unset(fs, n) == w;
      }
    }
  }

  /** The words of toks that are not options with key n. */
  function WithoutKey(toks: seq<string>, n: string): seq<string> {
    if toks == [] then []
    else
      var last := toks[|toks| - 1];
      WithoutKey(toks[..|toks| - 1], n) + (if HasKey(Classify(last), n) then [] else [last])
  }

  /** Dropping the words of key n drops exactly the options of key n from their reading. */
  lemma {:induction false} TokenizeWithoutKey(toks: seq<string>, n: string)
    ensures Tokenize(WithoutKey(toks, n)) == Unset(Tokenize(toks), n)
  {
    if toks != [] {
      var init := toks[..|toks| - 1];
      var last := toks[|toks| - 1];
      var fs := Tokenize(toks);
      TokenizeWithoutKey(init, n);
      assert fs[..|fs| - 1] == Tokenize(init);
      assert fs[|fs| - 1] == Classify(last);
      var w := WithoutKey(init, n);
      if !HasKey(Classify(last), n) {
        assert Tokenize(w + [last]) == Tokenize(w) + [Classify(last)];
      }
    }
  }

  // ---------------------------------------------------------------------
  // Second pass: resolving "-noX" against "-X"

  /** A key of the form "-noX". */
  predicate IsNegated(k: string) {
    |k| >= 3 && k[0] == '-' && k[1] == 'n' && k[2] == 'o'
  }

  /** "-X" for "-noX". */
  function Positive(k: string): string
    requires IsNegated(k)
  {
    "-" + k[3..]
  }

  predicate IsDashed(q: string) {
    |q| > 0 && q[0] == '-'
  }

  /** "-noX" for "-X". */
  function Negative(q: string): string
    requires IsDashed(q)
  {
    "-no" + q[1..]
  }

  lemma NegativeOfPositive(k: string)
    requires IsNegated(k)
    ensures IsDashed(Positive(k)) && Negative(Positive(k)) == k
  {
    assert Positive(k)[1..] == k[3..];
    assert k == k[..3] + k[3..];
  }

  lemma PositiveOfNegative(q: string)
    requires IsDashed(q)
    ensures IsNegated(Negative(q)) && Positive(Negative(q)) == q
  {
    assert Negative(q)[..3] == "-no";
    assert Negative(q)[3..] == q[1..];
    assert q == [q[0]] + q[1..];
  }

  /** A value reads as true when it is empty or "1". */
  predicate IsTruthy(v: string) {
    v == "" || v == "1"
  }

  /** The value given to "-X" by a lone "-noX=v". */
  function Negate(v: string): (r: string)
    ensures r == "0" || r == "1"
    ensures IsTruthy(r) == !IsTruthy(v)
  {
    if IsTruthy(v) then "0" else "1"
  }

  /** The resolved map: negations dropped where the positive form was given, synthesized where not. */
  function Resolve(raw: ArgMap): ArgMap {
    var kept := map q | q in raw && !(IsNegated(q) && Positive(q) in raw) :: raw[q];
    var positives := set k | k in raw && IsNegated(k) :: Positive(k);
    var synthesized := map q | q in positives && q !in raw && IsDashed(q) && Negative(q) in raw :: Negate(raw[Negative(q)]);
    kept + synthesized
  }

  /** The resolution rule, key by key. */
  lemma ResolveAt(raw: ArgMap, q: string)
    ensures q in Resolve(raw) <==>
      (q in raw && !(IsNegated(q) && Positive(q) in raw)) ||
      (q !in raw && IsDashed(q) && Negative(q) in raw)
    ensures q in raw && q in Resolve(raw) ==> Resolve(raw)[q] == raw[q]
    ensures q !in raw && q in Resolve(raw) ==>
      IsDashed(q) && Negative(q) in raw && Resolve(raw)[q] == Negate(raw[Negative(q)])
  {
    if q !in raw && IsDashed(q) && Negative(q) in raw {
      PositiveOfNegative(q);
      assert q in set k | k in raw && IsNegated(k) :: Positive(k);
    }
  }

  /** The settings an argument vector (program name first) parses to. */
  function Parse(argv: seq<string>): ArgMap {
    if argv == [] then map[] else Resolve(Collect(Tokenize(argv[1..])))
  }

  lemma ParseSkipsProgramName(prog: string, toks: seq<string>)
    ensures Parse([prog] + toks) == Resolve(Collect(Tokenize(toks)))
  {
    assert ([prog] + toks)[1..] == toks;
  }

  // ---------------------------------------------------------------------
  // ParseParameters: the two loops

  /** What the second loop has produced once the keys in done are handled. */
  ghost predicate ResolvedSoFar(raw: ArgMap, done: set<string>, m: ArgMap) {
    (forall q :: q in m <==>
       (q in raw && !(q in done && IsNegated(q) && Positive(q) in raw)) ||
       (q !in raw && IsDashed(q) && Negative(q) in done)) &&
    (forall q :: q in m && q in raw ==> m[q] == raw[q]) &&
    (forall q :: q in m && q !in raw ==>
       IsDashed(q) && Negative(q) in raw && m[q] == Negate(raw[Negative(q)]))
  }

  /** Handling one more key k keeps ResolvedSoFar, in each of the loop's three cases. */
  lemma ResolveStep(raw: ArgMap, todo: set<string>, m: ArgMap, k: string)
    requires k in todo && todo <= raw.Keys && ResolvedSoFar(raw, raw.Keys - todo, m)
    ensures !IsNegated(k) ==> ResolvedSoFar(raw, raw.Keys - (todo - {k}), m)
    ensures IsNegated(k) && Positive(k) in raw ==> ResolvedSoFar(raw, raw.Keys - (todo - {k}), m - {k})
    ensures IsNegated(k) && Positive(k) !in raw ==>
      ResolvedSoFar(raw, raw.Keys - (todo - {k}), m[Positive(k) := Negate(raw[k])])
  {
    assert raw.Keys - (todo - {k}) == (raw.Keys - todo) + {k};
    forall q | IsDashed(q) && Negative(q) == k
      ensures IsNegated(k) && q == Positive(k)
    {
      PositiveOfNegative(q);
    }
    if IsNegated(k) {
      NegativeOfPositive(k);
    }
  }

  /** Once every key is handled, the second loop has produced Resolve(raw). */
  lemma ResolvedAll(raw: ArgMap, m: ArgMap)
    requires ResolvedSoFar(raw, raw.Keys, m)
    ensures m == Resolve(raw)
  {
    forall q ensures (q in m <==> q in Resolve(raw)) && (q in m ==> m[q] == Resolve(raw)[q]) {
      ResolveAt(raw, q);
    }
  }

  method ParseParameters(argv: seq<string>) returns (args: ArgMap)
    ensures args == Parse(argv)
  {
    // First pass: every option token, last occurrence of a key wins.
    var raw: ArgMap := map[];
    if |argv| > 0 {
      ghost var fs := Tokenize(argv[1..]);
      var i := 1;
      while i < |argv|
        invariant 1 <= i <= |argv|
        invariant raw == Collect(fs[..i - 1])
      {
        assert fs[..i][..i - 1] == fs[..i - 1];
        var opt := Classify(argv[i]);
        assert fs[i - 1] == opt;
        match opt {
          case None =>
          case Some(f) =>
            raw := raw[f.key := f.value];
        }
        i := i + 1;
      }
      assert fs[..i - 1] == fs;
    }

    // Second pass: interpret "-noX" as "-X" negated, unless "-X" was given.
    args := raw;
    var todo := raw.Keys;
    while todo != {}
      invariant todo <= raw.Keys
      invariant ResolvedSoFar(raw, raw.Keys - todo, args)
      decreases todo
    {
      var k :| k in todo;
      ResolveStep(raw, todo, args, k);
      if IsNegated(k) {
        if Positive(k) in raw {
          args := args - {k};
        } else {
          args := args[Positive(k) := Negate(raw[k])];
        }
      }
      todo := todo - {k};
    }
    ResolvedAll(raw, args);
  }
  // ---------------------------------------------------------------------
  // Typed lookups

  /** GetArg(key, default) for strings: the stored value, even empty, whenever the key is present. */
  function GetArg(args: ArgMap, key: string, default: string): (r: string)
    ensures key in args ==> r == args[key]
    ensures key !in args ==> r == default
  {
    if key in args then args[key] else default
  }

  /** GetArg(key, default) for integers: the string lookup's value read as a number. */
  function GetIntArg(args: ArgMap, key: string, default: int): (r: int)
    ensures key in args ==> r == Atoi(GetArg(args, key, ""))
    ensures key !in args ==> r == default
  {
    if key in args then Atoi(args[key]) else default
  }

  /** GetBoolArg(key, default): the string lookup's value read as a truth value. */
  function GetBoolArg(args: ArgMap, key: string, default: bool): (r: bool)
    ensures key in args ==> r == IsTruthy(GetArg(args, key, ""))
    ensures key !in args ==> r == default
  {
    if key in args then IsTruthy(args[key]) else default
  }

  // ---------------------------------------------------------------------
  // What parsing promises, for every argument list

  /**
   * The program name takes no part in the parse: any other name gives the
   * same settings, and the name alone gives none.
   */
  lemma ProgramNameIgnored(prog: string, other: string, toks: seq<string>)
    ensures Parse([prog] + toks) == Parse([other] + toks)
    ensures Parse([prog]) == map[]
  {
    ParseSkipsProgramName(prog, toks);
    ParseSkipsProgramName(other, toks);
    ParseSkipsProgramName(prog, []);
    assert Tokenize([]) == [];
    assert [prog] + [] == [prog];
  }

  /** Every key a parse defines has the option form: a leading dash and no '='. */
  lemma ParsedKeys(prog: string, toks: seq<string>, k: string)
    requires k in Parse([prog] + toks)
    ensures IsKey(k)
  {
    ParseSkipsProgramName(prog, toks);
    var fs := Tokenize(toks);
    var raw := Collect(fs);
    ResolveAt(raw, k);
    var q := if k in raw then k else Negative(k);
    CollectDomain(fs, q);
    var i :| 0 <= i < |fs| && HasKey(fs[i], q);
    ClassifySplit(toks[i]);
    if k !in raw {
      assert q[3..] == k[1..];
      assert k == [k[0]] + k[1..];
    }
  }

  /** Which keys a parse defines, in terms of the words given. */
  lemma ParseDomain(prog: string, toks: seq<string>, q: string)
    ensures q in Parse([prog] + toks) <==>
      (Occurs(Tokenize(toks), q) && !(IsNegated(q) && Occurs(Tokenize(toks), Positive(q)))) ||
      (!Occurs(Tokenize(toks), q) && IsDashed(q) && Occurs(Tokenize(toks), Negative(q)))
  {
    ParseSkipsProgramName(prog, toks);
    var fs := Tokenize(toks);
    ResolveAt(Collect(fs), q);
    CollectDomain(fs, q);
    if IsNegated(q) {
      CollectDomain(fs, Positive(q));
    }
    if IsDashed(q) {
      CollectDomain(fs, Negative(q));
    }
  }

  /** A key that never appeared, nor its negation, gives every lookup its default. */
  lemma AbsentKeyGivesDefault(prog: string, toks: seq<string>, k: string, ds: string, di: int, db: bool)
    requires !Occurs(Tokenize(toks), k)
    requires IsDashed(k) ==> !Occurs(Tokenize(toks), Negative(k))
    ensures k !in Parse([prog] + toks)
    ensures GetArg(Parse([prog] + toks), k, ds) == ds
    ensures GetIntArg(Parse([prog] + toks), k, di) == di
    ensures GetBoolArg(Parse([prog] + toks), k, db) == db
  {
    ParseDomain(prog, toks, k);
  }

  /**
   * The last occurrence of a key decides its value, whatever the defaults,
   * unless the key is a negation whose positive form was also given.
   */
  lemma LastValueStands(prog: string, toks: seq<string>, i: nat, k: string, v: string,
                        ds: string, di: int, db: bool)
    requires i < |toks| && Classify(toks[i]) == Some(Flag(k, v))
    requires LastAt(Tokenize(toks), i, k)
    requires IsNegated(k) ==> !Occurs(Tokenize(toks), Positive(k))
    ensures k in Parse([prog] + toks) && Parse([prog] + toks)[k] == v
    ensures GetArg(Parse([prog] + toks), k, ds) == v
    ensures GetIntArg(Parse([prog] + toks), k, di) == Atoi(v)
    ensures GetBoolArg(Parse([prog] + toks), k, db) == IsTruthy(v)
  {
    ParseSkipsProgramName(prog, toks);
    var fs := Tokenize(toks);
    CollectLastWins(fs, i, k, v);
    if IsNegated(k) {
      CollectDomain(fs, Positive(k));
    }
    ResolveAt(Collect(fs), k);
  }

  /** A bare "-K" as the last word of its key reads as true, as "" and as 0, whatever the defaults. */
  lemma BareFlagIgnoresDefault(prog: string, toks: seq<string>, i: nat, k: string,
                               ds: string, di: int, db: bool)
    requires i < |toks| && Classify(toks[i]) == Some(Flag(k, ""))
    requires LastAt(Tokenize(toks), i, k)
    requires IsNegated(k) ==> !Occurs(Tokenize(toks), Positive(k))
    ensures GetArg(Parse([prog] + toks), k, ds) == ""
    ensures GetIntArg(Parse([prog] + toks), k, di) == 0
    ensures GetBoolArg(Parse([prog] + toks), k, db)
  {
    LastValueStands(prog, toks, i, k, "", ds, di, db);
    AtoiNoDigits("");
  }

  /** A lone "-noX=v" (no "-X" anywhere) sets "-X" to the negation of v. */
  lemma NegationAlone(prog: string, toks: seq<string>, i: nat, p: string, v: string,
                      ds: string, di: int, db: bool)
    requires IsDashed(p) && !Occurs(Tokenize(toks), p)
    requires i < |toks| && Classify(toks[i]) == Some(Flag(Negative(p), v))
    requires LastAt(Tokenize(toks), i, Negative(p))
    ensures GetBoolArg(Parse([prog] + toks), p, db) == !IsTruthy(v)
    ensures GetArg(Parse([prog] + toks), p, ds) == Negate(v)
    ensures GetIntArg(Parse([prog] + toks), p, di) == if IsTruthy(v) then 0 else 1
  {
    ParseSkipsProgramName(prog, toks);
    var fs := Tokenize(toks);
    CollectLastWins(fs, i, Negative(p), v);
    CollectDomain(fs, p);
    ResolveAt(Collect(fs), p);
    AtoiOfBit(Negate(v));
  }

  /**
   * Once "-X" is given, "-noX" is ignored whatever the order and the values:
   * a given "-noX" is dropped, and "-X" resolves exactly as if no "-noX"
   * word had been given.
   */
  lemma PositiveBeatsNegation(prog: string, toks: seq<string>, p: string)
    requires IsDashed(p) && Occurs(Tokenize(toks), p)
    ensures Occurs(Tokenize(toks), Negative(p)) ==> Negative(p) !in Parse([prog] + toks)
    ensures p in Parse([prog] + toks) <==> p in Parse([prog] + WithoutKey(toks, Negative(p)))
    ensures p in Parse([prog] + toks) ==>
      Parse([prog] + toks)[p] == Parse([prog] + WithoutKey(toks, Negative(p)))[p]
  {
    var n := Negative(p);
    var rest := WithoutKey(toks, n);
    ParseSkipsProgramName(prog, toks);
    ParseSkipsProgramName(prog, rest);
    var fs := Tokenize(toks);
    TokenizeWithoutKey(toks, n);
    var raw, raw' := Collect(fs), Collect(Unset(fs, n));
    PositiveOfNegative(p);
    CollectDomain(fs, p);
    CollectUnset(fs, n, p);
    CollectDomain(fs, n);
    ResolveAt(raw, n);
    ResolveAt(raw, p);
    ResolveAt(raw', p);
    if IsNegated(p) {
      assert |Positive(p)| != |n|;
      CollectUnset(fs, n, Positive(p));
    }
  }

  /** "--X[=V]" parses exactly as "-X[=V]", wherever it stands. */
  lemma DoubleDashAsSingle(prog: string, pre: seq<string>, s: string, post: seq<string>)
    requires s == [] || s[0] != '-'
    ensures Parse([prog] + pre + ["--" + s] + post) == Parse([prog] + pre + ["-" + s] + post)
  {
    var a := pre + ["--" + s] + post;
    var b := pre + ["-" + s] + post;
    assert ([prog] + pre + ["--" + s] + post)[1..] == a;
    assert ([prog] + pre + ["-" + s] + post)[1..] == b;
    assert Classify("--" + s) == Classify("-" + s) by {
      assert ("--" + s)[1..] == "-" + s;
      assert ("--" + s)[..2] == "--";
    }
    assert Tokenize(a) == Tokenize(b) by {
      forall i | 0 <= i < |a| ensures Tokenize(a)[i] == Tokenize(b)[i] {
        if i != |pre| {
          assert a[i] == b[i];
        }
      }
    }
  }
}
