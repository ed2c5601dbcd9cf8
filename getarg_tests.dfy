/**
 * The scenarios of the getarg test suite, each proved for every default the
 * lookups are given. ResetArgs puts a dummy program name in front of the
 * words of a command line and parses the result.
 */
module GetArgTests {
  import opened Flags
  import opened Numbers
  import opened Args

  /** ResetArgs: parse the words after the dummy program name "testbitcoin". */
  function ResetArgs(words: seq<string>): ArgMap {
    Parse(["testbitcoin"] + words)
  }

  /** The two numbers the intarg case writes read as 11 and 12. */
  lemma ElevenAndTwelve()
    ensures Atoi("11") == 11 && Atoi("12") == 12
  {
    AtoiAllDigits("11");
    AtoiAllDigits("12");
    assert "11"[..1] == "1" && "12"[..1] == "1";
  }

  /** Word tok spells key k with value v in one of the accepted forms. */
  predicate Spells(tok: string, k: string, v: string) {
    IsKey(k) && SingleDash(k) &&
    (tok == k + "=" + v || tok == "-" + k + "=" + v || (v == "" && (tok == k || tok == "-" + k)))
  }

  /** A test word that spells key k with value v reads as that option. */
  lemma ReadsAs(tok: string, k: string, v: string)
    requires Spells(tok, k, v)
    ensures Classify(tok) == Some(Flag(k, v))
  {
    ClassifyRender(k, v);
  }

  /** When the second of two words has another key, the first is the last word with key k. */
  lemma SecondHasOtherKey(a: string, b: string, k: string, kb: string, vb: string)
    requires Spells(b, kb, vb) && kb != k
    ensures LastAt(Tokenize([a, b]), 0, k)
  {
    ReadsAs(b, kb, vb);
  }

  /** A one-word command line does not give any key but its own. */
  lemma OnlyWordHasOtherKey(a: string, ka: string, va: string, k: string)
    requires Spells(a, ka, va) && ka != k
    ensures !Occurs(Tokenize([a]), k)
  {
    ReadsAs(a, ka, va);
  }

  // ---------------------------------------------------------------------
  // boolarg

  /** "-juicy": the bare flag is true whatever the default. */
  lemma BoolArgBareFlag(d: bool)
    ensures GetBoolArg(ResetArgs(["-juicy"]), "-juicy", d)
  {
    ReadsAs("-juicy", "-juicy", "");
    BareFlagIgnoresDefault("testbitcoin", ["-juicy"], 0, "-juicy", "", 0, d);
  }

  /** "-juicy": "-fo" and "-juicyo" were not given, so they keep the default. */
  lemma BoolArgOtherKeys(d: bool)
    ensures GetBoolArg(ResetArgs(["-juicy"]), "-fo", d) == d
    ensures GetBoolArg(ResetArgs(["-juicy"]), "-juicyo", d) == d
  {
    OnlyWordHasOtherKey("-juicy", "-juicy", "", "-fo");
    OnlyWordHasOtherKey("-juicy", "-juicy", "", "-nofo");
    OnlyWordHasOtherKey("-juicy", "-juicy", "", "-juicyo");
    OnlyWordHasOtherKey("-juicy", "-juicy", "", "-nojuicyo");
    assert Negative("-fo") == "-nofo" && Negative("-juicyo") == "-nojuicyo";
    AbsentKeyGivesDefault("testbitcoin", ["-juicy"], "-fo", "", 0, d);
    AbsentKeyGivesDefault("testbitcoin", ["-juicy"], "-juicyo", "", 0, d);
  }

  /** "-juicy=0" is false whatever the default. */
  lemma BoolArgExplicitZero(d: bool)
    ensures !GetBoolArg(ResetArgs(["-juicy=0"]), "-juicy", d)
  {
    ReadsAs("-juicy=0", "-juicy", "0");
    LastValueStands("testbitcoin", ["-juicy=0"], 0, "-juicy", "0", "", 0, d);
  }

  /** "-juicy=1" is true whatever the default. */
  lemma BoolArgExplicitOne(d: bool)
    ensures GetBoolArg(ResetArgs(["-juicy=1"]), "-juicy", d)
  {
    ReadsAs("-juicy=1", "-juicy", "1");
    LastValueStands("testbitcoin", ["-juicy=1"], 0, "-juicy", "1", "", 0, d);
  }

  /** "-nojuicy" alone makes "-juicy" false (also the first case of boolargno). */
  lemma BoolArgNegated(d: bool)
    ensures !GetBoolArg(ResetArgs(["-nojuicy"]), "-juicy", d)
  {
    assert Negative("-juicy") == "-nojuicy";
    ReadsAs("-nojuicy", "-nojuicy", "");
    OnlyWordHasOtherKey("-nojuicy", "-nojuicy", "", "-juicy");
    NegationAlone("testbitcoin", ["-nojuicy"], 0, "-juicy", "", "", 0, d);
  }

  /** "-nojuicy=1" alone makes "-juicy" false (also the second case of boolargno). */
  lemma BoolArgNegatedOne(d: bool)
    ensures !GetBoolArg(ResetArgs(["-nojuicy=1"]), "-juicy", d)
  {
    assert Negative("-juicy") == "-nojuicy";
    ReadsAs("-nojuicy=1", "-nojuicy", "1");
    OnlyWordHasOtherKey("-nojuicy=1", "-nojuicy", "1", "-juicy");
    NegationAlone("testbitcoin", ["-nojuicy=1"], 0, "-juicy", "1", "", 0, d);
  }

  /** "-juicy -nojuicy": the positive form wins. */
  lemma BoolArgPositiveWins(d: bool)
    ensures GetBoolArg(ResetArgs(["-juicy", "-nojuicy"]), "-juicy", d)
  {
    SecondHasOtherKey("-juicy", "-nojuicy", "-juicy", "-nojuicy", "");
    ReadsAs("-juicy", "-juicy", "");
    LastValueStands("testbitcoin", ["-juicy", "-nojuicy"], 0, "-juicy", "", "", 0, d);
  }

  /** "-juicy=1 -nojuicy=1": the positive form wins. */
  lemma BoolArgPositiveOneWins(d: bool)
    ensures GetBoolArg(ResetArgs(["-juicy=1", "-nojuicy=1"]), "-juicy", d)
  {
    SecondHasOtherKey("-juicy=1", "-nojuicy=1", "-juicy", "-nojuicy", "1");
    ReadsAs("-juicy=1", "-juicy", "1");
    LastValueStands("testbitcoin", ["-juicy=1", "-nojuicy=1"], 0, "-juicy", "1", "", 0, d);
  }

  /** "-juicy=0 -nojuicy=0": the positive form's own value stands, so false. */
  lemma BoolArgPositiveZeroWins(d: bool)
    ensures !GetBoolArg(ResetArgs(["-juicy=0", "-nojuicy=0"]), "-juicy", d)
  {
    SecondHasOtherKey("-juicy=0", "-nojuicy=0", "-juicy", "-nojuicy", "0");
    ReadsAs("-juicy=0", "-juicy", "0");
    LastValueStands("testbitcoin", ["-juicy=0", "-nojuicy=0"], 0, "-juicy", "0", "", 0, d);
  }

  /** "--juicy=1" is read as "-juicy=1". */
  lemma BoolArgDoubleDash(d: bool)
    ensures GetBoolArg(ResetArgs(["--juicy=1"]), "-juicy", d)
  {
    ReadsAs("--juicy=1", "-juicy", "1");
    LastValueStands("testbitcoin", ["--juicy=1"], 0, "-juicy", "1", "", 0, d);
  }

  /** "--nojuicy=1" is read as "-nojuicy=1", so "-juicy" is false. */
  lemma BoolArgDoubleDashNegated(d: bool)
    ensures !GetBoolArg(ResetArgs(["--nojuicy=1"]), "-juicy", d)
  {
    assert Negative("-juicy") == "-nojuicy";
    ReadsAs("--nojuicy=1", "-nojuicy", "1");
    OnlyWordHasOtherKey("--nojuicy=1", "-nojuicy", "1", "-juicy");
    NegationAlone("testbitcoin", ["--nojuicy=1"], 0, "-juicy", "1", "", 0, d);
  }

  // ---------------------------------------------------------------------
  // stringarg and intarg

  /** An empty command line: splitting "" on white space gives one empty word, which is not an option, so every default comes back. */
  lemma EmptyCommandLine(ds: string, di: int)
    ensures GetArg(ResetArgs([""]), "-juicy", ds) == ds
    ensures GetIntArg(ResetArgs([""]), "-juicy", di) == di
  {
    AbsentKeyGivesDefault("testbitcoin", [""], "-juicy", ds, di, false);
  }

  /** "-juicy -bar": the first bare flag reads as "" and as 0, whatever the default. */
  lemma BareFlagFirst(ds: string, di: int)
    ensures GetArg(ResetArgs(["-juicy", "-bar"]), "-juicy", ds) == ""
    ensures GetIntArg(ResetArgs(["-juicy", "-bar"]), "-juicy", di) == 0
  {
    SecondHasOtherKey("-juicy", "-bar", "-juicy", "-bar", "");
    ReadsAs("-juicy", "-juicy", "");
    BareFlagIgnoresDefault("testbitcoin", ["-juicy", "-bar"], 0, "-juicy", ds, di, false);
  }

  /** "-juicy -bar": the second bare flag reads as 0 too. */
  lemma BareFlagSecond(di: int)
    ensures GetIntArg(ResetArgs(["-juicy", "-bar"]), "-bar", di) == 0
  {
    ReadsAs("-bar", "-bar", "");
    BareFlagIgnoresDefault("testbitcoin", ["-juicy", "-bar"], 1, "-bar", "", di, false);
  }

  /** "-juicy=": an empty value is still a value, not the default. */
  lemma StringArgEmptyValue(ds: string)
    ensures GetArg(ResetArgs(["-juicy="]), "-juicy", ds) == ""
  {
    ReadsAs("-juicy=", "-juicy", "");
    LastValueStands("testbitcoin", ["-juicy="], 0, "-juicy", "", ds, 0, false);
  }

  /** "-juicy=11" reads as the string "11". */
  lemma StringArgDigits(ds: string)
    ensures GetArg(ResetArgs(["-juicy=11"]), "-juicy", ds) == "11"
  {
    ReadsAs("-juicy=11", "-juicy", "11");
    LastValueStands("testbitcoin", ["-juicy=11"], 0, "-juicy", "11", ds, 0, false);
  }

  /** "-juicy=eleven" reads as the string "eleven". */
  lemma StringArgWord(ds: string)
    ensures GetArg(ResetArgs(["-juicy=eleven"]), "-juicy", ds) == "eleven"
  {
    ReadsAs("-juicy=eleven", "-juicy", "eleven");
    LastValueStands("testbitcoin", ["-juicy=eleven"], 0, "-juicy", "eleven", ds, 0, false);
  }

  /** "-juicy=11 -bar=12": "-juicy" reads as the number 11. */
  lemma IntArgDigitsFirst(di: int)
    ensures GetIntArg(ResetArgs(["-juicy=11", "-bar=12"]), "-juicy", di) == 11
  {
    SecondHasOtherKey("-juicy=11", "-bar=12", "-juicy", "-bar", "12");
    ReadsAs("-juicy=11", "-juicy", "11");
    LastValueStands("testbitcoin", ["-juicy=11", "-bar=12"], 0, "-juicy", "11", "", di, false);
    ElevenAndTwelve();
  }

  /** "-juicy=11 -bar=12": "-bar" reads as the number 12. */
  lemma IntArgDigitsSecond(di: int)
    ensures GetIntArg(ResetArgs(["-juicy=11", "-bar=12"]), "-bar", di) == 12
  {
    ReadsAs("-bar=12", "-bar", "12");
    LastValueStands("testbitcoin", ["-juicy=11", "-bar=12"], 1, "-bar", "12", "", di, false);
    ElevenAndTwelve();
  }

  /** "-juicy=NaN -bar=NotANumber": "-juicy" has no digits and reads as 0, not the default. */
  lemma IntArgNotANumberFirst(di: int)
    ensures GetIntArg(ResetArgs(["-juicy=NaN", "-bar=NotANumber"]), "-juicy", di) == 0
  {
    SecondHasOtherKey("-juicy=NaN", "-bar=NotANumber", "-juicy", "-bar", "NotANumber");
    ReadsAs("-juicy=NaN", "-juicy", "NaN");
    LastValueStands("testbitcoin", ["-juicy=NaN", "-bar=NotANumber"], 0, "-juicy", "NaN", "", di, false);
    AtoiNoDigits("NaN");
  }

  /** "-juicy=NaN -bar=NotANumber": "-bar" has no digits and reads as 0, not the default. */
  lemma IntArgNotANumberSecond(di: int)
    ensures GetIntArg(ResetArgs(["-juicy=NaN", "-bar=NotANumber"]), "-bar", di) == 0
  {
    ReadsAs("-bar=NotANumber", "-bar", "NotANumber");
    LastValueStands("testbitcoin", ["-juicy=NaN", "-bar=NotANumber"], 1, "-bar", "NotANumber", "", di, false);
    AtoiNoDigits("NotANumber");
  }

  // ---------------------------------------------------------------------
  // doubledash

  /** "--juicy" is the bare flag "-juicy". */
  lemma DoubleDashBare(d: bool)
    ensures GetBoolArg(ResetArgs(["--juicy"]), "-juicy", d)
  {
    ReadsAs("--juicy", "-juicy", "");
    BareFlagIgnoresDefault("testbitcoin", ["--juicy"], 0, "-juicy", "", 0, d);
  }

  /** "--juicy=verbose --bar=1": "-juicy" reads as "verbose". */
  lemma DoubleDashValuesFirst(ds: string)
    ensures GetArg(ResetArgs(["--juicy=verbose", "--bar=1"]), "-juicy", ds) == "verbose"
  {
    SecondHasOtherKey("--juicy=verbose", "--bar=1", "-juicy", "-bar", "1");
    ReadsAs("--juicy=verbose", "-juicy", "verbose");
    LastValueStands("testbitcoin", ["--juicy=verbose", "--bar=1"], 0, "-juicy", "verbose", ds, 0, false);
  }

  /** "--juicy=verbose --bar=1": "-bar" reads as the number 1. */
  lemma DoubleDashValuesSecond(di: int)
    ensures GetIntArg(ResetArgs(["--juicy=verbose", "--bar=1"]), "-bar", di) == 1
  {
    ReadsAs("--bar=1", "-bar", "1");
    LastValueStands("testbitcoin", ["--juicy=verbose", "--bar=1"], 1, "-bar", "1", "", di, false);
    AtoiOfBit("1");
  }

  // ---------------------------------------------------------------------
  // boolargno

  /** "-nojuicy=0" alone makes "-juicy" true. */
  lemma BoolArgNegatedZero(d: bool)
    ensures GetBoolArg(ResetArgs(["-nojuicy=0"]), "-juicy", d)
  {
    assert Negative("-juicy") == "-nojuicy";
    ReadsAs("-nojuicy=0", "-nojuicy", "0");
    OnlyWordHasOtherKey("-nojuicy=0", "-nojuicy", "0", "-juicy");
    NegationAlone("testbitcoin", ["-nojuicy=0"], 0, "-juicy", "0", "", 0, d);
  }

  /** "-juicy --nojuicy": the positive form wins over the double-dash negation. */
  lemma BoolArgPositiveBeforeDoubleDashNegation(d: bool)
    ensures GetBoolArg(ResetArgs(["-juicy", "--nojuicy"]), "-juicy", d)
  {
    SecondHasOtherKey("-juicy", "--nojuicy", "-juicy", "-nojuicy", "");
    ReadsAs("-juicy", "-juicy", "");
    LastValueStands("testbitcoin", ["-juicy", "--nojuicy"], 0, "-juicy", "", "", 0, d);
  }

  /** "-nojuicy -juicy": the positive form wins when it comes last too. */
  lemma BoolArgNegationBeforePositive(d: bool)
    ensures GetBoolArg(ResetArgs(["-nojuicy", "-juicy"]), "-juicy", d)
  {
    ReadsAs("-juicy", "-juicy", "");
    LastValueStands("testbitcoin", ["-nojuicy", "-juicy"], 1, "-juicy", "", "", 0, d);
  }
}
