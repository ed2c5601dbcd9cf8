# Command-line argument parsing (ParseParameters, GetArg, GetBoolArg)

A Dafny model of the startup argument parser of Juicy-Coin (a Bitcoin
derivative): `ParseParameters` turns the argument vector into a key -> value
map, and the lookups `GetArg` (string and integer overloads) and `GetBoolArg`
query it. The implementation file (`util.cpp`) is not part of this model; the
behaviour modelled is the one the assertions of `src/test/getarg_tests.cpp`
require. Where those assertions leave a behaviour open, the model makes a
choice of its own, and "## Left out" lists each such choice.

- `flags.dfy` (module `Flags`): the tokenizer. A word that starts with `-` is
  an option; a leading `--` reads as `-`; the option is split at its first `=`
  into key and value, and a word without `=` has the value `""`. The model
  skips a word that does not start with `-` and goes on with the next one.
- `numbers.dfy` (module `Numbers`): the integer reading of a value, as C's
  `atoi` does it: an optional sign, then the longest run of leading digits; no
  digits read as 0.
- `args.dfy` (module `Args`): the model parses in two passes, written as
  two loops in the method `ParseParameters`. The first loop collects the
  options after the program name, and the last occurrence of a key wins. The
  second loop resolves every `-noX` against `-X`. When `-X` was given as well,
  the model drops `-noX`, and `-X` keeps its own value whatever the order.
  Otherwise the model adds `-X` with the negation of the `-noX` value: `""`
  and `"1"` negate to `"0"`, anything else to `"1"`. The typed lookups return
  the default exactly when the key is absent. `ParseParameters` is proved
  equal to the function `Parse`, and the properties are lemmas about `Parse`
  for every argument list.
- `getarg_tests.dfy` (module `GetArgTests`): every assertion of the test
  suite, proved for every default the lookups are given. `ResetArgs` takes the
  words of the command line already split, with the dummy program name
  `testbitcoin` put in front.

Two consequences of the rules are visible in the contracts. `"--" + s` reads
as `"-" + s` only when `s` does not itself start with `-` (`---x` reads as the
key `--x`, `--x` as `-x`). And "`-noX` is absent after parsing" holds only
when a `-noX` word was given: a lone `-nonoX` synthesizes `-noX`.

## Model

| member | source | states |
|---|---|---|
| Args.ParseParameters | src/test/getarg_tests.cpp:9-24 | the two loops (collect the options after the program name, then resolve each `-noX`) build exactly `Parse(argv)` |
| Args.Parse | src/test/getarg_tests.cpp:23 | the settings `ParseParameters` leaves behind for an argument vector: the collected options with every `-noX` resolved; its properties are the lemmas below |
| Args.ProgramNameIgnored | src/test/getarg_tests.cpp:15-16 | the program name takes no part in the parse: any other name gives the same settings, and the name alone gives none |
| Args.ParsedKeys | src/test/getarg_tests.cpp:100-110 | every key a parse defines has the option form: a leading dash and no `=` |
| Args.Collect | src/test/getarg_tests.cpp:23 | the first pass of `ParseParameters`: each option, in order, sets its key; its contract is in `CollectDomain` and `CollectLastWins` |
| Args.Resolve | src/test/getarg_tests.cpp:51-60 | the second pass of `ParseParameters`: the `-noX` rule applied to the collected map; its contract is in `ResolveAt` |
| Args.GetArg | src/test/getarg_tests.cpp:92-110 | the string overload of `GetArg`: the stored value, even the empty one, whenever the key is present, and the default only when it is absent |
| Args.GetIntArg | src/test/getarg_tests.cpp:116-130 | the integer overload of `GetArg`: the string lookup's value read as a number when the key is present, the default only when it is absent |
| Args.GetBoolArg | src/test/getarg_tests.cpp:26-88 | `GetBoolArg`: the string lookup's value read as a truth value when the key is present, the default only when it is absent |
| Args.CollectDomain | src/test/getarg_tests.cpp:12-23 | a key is collected exactly when some word is an option with that key |
| Args.CollectLastWins | src/test/getarg_tests.cpp:12-23 | the collected value of a key is the value of its last occurrence |
| Args.CollectUnset | src/test/getarg_tests.cpp:62-75 | dropping the options of key n removes n and leaves every other key present or absent, with the same value |
| Args.TokenizeWithoutKey | src/test/getarg_tests.cpp:62-75 | removing the words of key n removes exactly the options of key n from the tokenizer's reading |
| Args.Negate | src/test/getarg_tests.cpp:145-158 | the value synthesized for `-X` is `"0"` or `"1"` and reads as true exactly when the `-noX` value does not |
| Args.ResolveAt | src/test/getarg_tests.cpp:51-60 | key by key: a key stays unless it is `-noX` with `-X` collected; `-X` is added with the negated value exactly when `-X` is absent and `-noX` present |
| Args.ParseDomain | src/test/getarg_tests.cpp:33-39 | the keys a parse defines, in both directions, in terms of the words given |
| Args.AbsentKeyGivesDefault | src/test/getarg_tests.cpp:33-39 | a key that was not given, nor its negation, returns the caller's default from all three lookups |
| Args.LastValueStands | src/test/getarg_tests.cpp:41-49 | the value of the last occurrence of a key is returned by all three lookups, whatever the defaults |
| Args.BareFlagIgnoresDefault | src/test/getarg_tests.cpp:120-122 | a bare `-K` reads as `""`, as 0 and as true, whatever the defaults |
| Args.NegationAlone | src/test/getarg_tests.cpp:52-60 | a lone `-noX=v` makes `-X` the negation of v for every lookup, whatever the defaults |
| Args.PositiveBeatsNegation | src/test/getarg_tests.cpp:62-75 | once `-X` is given, a given `-noX` is dropped and `-X` parses exactly as if no `-noX` word were there, whatever the order |
| Args.DoubleDashAsSingle | src/test/getarg_tests.cpp:77-86 | replacing `-s` by `--s` anywhere in the command line leaves the parse unchanged |
| Flags.Classify | src/test/getarg_tests.cpp:96-110 | how `ParseParameters` reads one word: an option with its key and value, or nothing; its contract is in `ClassifySplit` and `ClassifyRender` |
| Flags.Normalize | src/test/getarg_tests.cpp:77-86 | a leading `--` loses one dash; any other word is left as it is; a word starting with `-` still starts with `-` |
| Flags.FindEq | src/test/getarg_tests.cpp:100-110 | the position found holds the first `=` of the word; none is found exactly when the word has no `=` |
| Flags.ClassifySplit | src/test/getarg_tests.cpp:96-110 | a word is an option exactly when it starts with `-`; its key has one leading dash and no `=`; key, `=` and value rebuild the normalised word, or the word is the key and the value is empty |
| Flags.ClassifyRender | src/test/getarg_tests.cpp:135-140 | writing a key, with or without `=value`, after `-` or `--`, reads back as that key and value |
| Flags.ClassifyBare | src/test/getarg_tests.cpp:135-136 | a bare key, after `-` or `--`, reads as that key with the empty value |
| Flags.ClassifyWithValue | src/test/getarg_tests.cpp:138-139 | `k=v`, after `-` or `--`, reads as key k with value v |
| Flags.FirstEqAfterKey | src/test/getarg_tests.cpp:100-110 | in `k=v` with no `=` in k, the first `=` is the one after k, whatever v holds |
| Numbers.Atoi | src/test/getarg_tests.cpp:124-130 | the `atoi` reading of a value that the integer `GetArg` uses; its contract is in `AtoiDecimal`, `AtoiAllDigits` and `AtoiNoDigits` |
| Numbers.DigitPrefixLen | src/test/getarg_tests.cpp:124-130 | the leading run of digits is maximal: all digits, followed by the end or a non-digit |
| Numbers.DigitsValueOfDecimal | src/test/getarg_tests.cpp:124-126 | the value of the decimal writing of n is n |
| Numbers.AtoiDecimal | src/test/getarg_tests.cpp:124-126 | the decimal writing of n followed by a non-digit (or nothing) reads as n |
| Numbers.AtoiAllDigits | src/test/getarg_tests.cpp:124-126 | a string of digits reads as the number it denotes |
| Numbers.AtoiOfBit | src/test/getarg_tests.cpp:138-140 | `"0"` and `"1"` read as 0 and 1 |
| Numbers.AtoiNoDigits | src/test/getarg_tests.cpp:128-130 | a value with no leading digits reads as 0, not as the default |
| GetArgTests.ResetArgs | src/test/getarg_tests.cpp:9-24 | `ResetArgs`: the dummy program name `testbitcoin` put in front of the words, then `ParseParameters` |
| GetArgTests.ElevenAndTwelve | src/test/getarg_tests.cpp:124-126 | `"11"` and `"12"` read as 11 and 12 |
| GetArgTests.BoolArgBareFlag | src/test/getarg_tests.cpp:28-31 | `-juicy` is true for either default |
| GetArgTests.BoolArgOtherKeys | src/test/getarg_tests.cpp:33-39 | after `-juicy`, `-fo` and `-juicyo` return the default |
| GetArgTests.BoolArgExplicitZero | src/test/getarg_tests.cpp:41-44 | `-juicy=0` is false for either default |
| GetArgTests.BoolArgExplicitOne | src/test/getarg_tests.cpp:46-49 | `-juicy=1` is true for either default |
| GetArgTests.BoolArgNegated | src/test/getarg_tests.cpp:52-55 | `-nojuicy` makes `-juicy` false for either default |
| GetArgTests.BoolArgNegatedOne | src/test/getarg_tests.cpp:57-60 | `-nojuicy=1` makes `-juicy` false for either default |
| GetArgTests.BoolArgPositiveWins | src/test/getarg_tests.cpp:62-65 | `-juicy -nojuicy` gives true |
| GetArgTests.BoolArgPositiveOneWins | src/test/getarg_tests.cpp:67-70 | `-juicy=1 -nojuicy=1` gives true |
| GetArgTests.BoolArgPositiveZeroWins | src/test/getarg_tests.cpp:72-75 | `-juicy=0 -nojuicy=0` gives false: the positive form's own value stands |
| GetArgTests.BoolArgDoubleDash | src/test/getarg_tests.cpp:78-81 | `--juicy=1` is true for either default |
| GetArgTests.BoolArgDoubleDashNegated | src/test/getarg_tests.cpp:83-86 | `--nojuicy=1` makes `-juicy` false for either default |
| GetArgTests.EmptyCommandLine | src/test/getarg_tests.cpp:92-94 | an empty command line returns the string and the integer default |
| GetArgTests.BareFlagFirst | src/test/getarg_tests.cpp:96-98 | after `-juicy -bar`, `-juicy` reads as `""` and as 0 whatever the default |
| GetArgTests.BareFlagSecond | src/test/getarg_tests.cpp:120-122 | after `-juicy -bar`, `-bar` reads as 0 whatever the default |
| GetArgTests.StringArgEmptyValue | src/test/getarg_tests.cpp:100-102 | `-juicy=` reads as `""`, not the default |
| GetArgTests.StringArgDigits | src/test/getarg_tests.cpp:104-106 | `-juicy=11` reads as the string `"11"` |
| GetArgTests.StringArgWord | src/test/getarg_tests.cpp:108-110 | `-juicy=eleven` reads as the string `"eleven"` |
| GetArgTests.IntArgDigitsFirst | src/test/getarg_tests.cpp:124-125 | after `-juicy=11 -bar=12`, `-juicy` reads as 11 |
| GetArgTests.IntArgDigitsSecond | src/test/getarg_tests.cpp:124-126 | after `-juicy=11 -bar=12`, `-bar` reads as 12 |
| GetArgTests.IntArgNotANumberFirst | src/test/getarg_tests.cpp:128-129 | after `-juicy=NaN -bar=NotANumber`, `-juicy` reads as 0, not the default |
| GetArgTests.IntArgNotANumberSecond | src/test/getarg_tests.cpp:128-130 | after `-juicy=NaN -bar=NotANumber`, `-bar` reads as 0, not the default |
| GetArgTests.DoubleDashBare | src/test/getarg_tests.cpp:135-136 | `--juicy` is true |
| GetArgTests.DoubleDashValuesFirst | src/test/getarg_tests.cpp:138-139 | after `--juicy=verbose --bar=1`, `-juicy` reads as `"verbose"` |
| GetArgTests.DoubleDashValuesSecond | src/test/getarg_tests.cpp:138-140 | after `--juicy=verbose --bar=1`, `-bar` reads as 1 |
| GetArgTests.BoolArgNegatedZero | src/test/getarg_tests.cpp:155-158 | `-nojuicy=0` makes `-juicy` true for either default |
| GetArgTests.BoolArgPositiveBeforeDoubleDashNegation | src/test/getarg_tests.cpp:160-161 | `-juicy --nojuicy` gives true |
| GetArgTests.BoolArgNegationBeforePositive | src/test/getarg_tests.cpp:163-164 | `-nojuicy -juicy` gives true |

The cases of `boolargno` at lines 145-153 repeat those of lines 52-60 and are
covered by `GetArgTests.BoolArgNegated` and `GetArgTests.BoolArgNegatedOne`.

## Left out

- The splitting of a command-line string into words (`boost::split` on white space with `token_compress_on`) and the conversion to a `char*` vector: `ResetArgs` takes the words already split; the empty string becomes the one empty word `""`, as that split gives.
- The process-wide argument maps and any locking around them: parsing returns an explicit map.
- The multi-value map (every value of a repeated key in order): no test reads it.
- Repeated keys are modelled only as "the last occurrence wins"; no test gives the same key twice.
- `atoi`'s skipping of leading white space and its overflow behaviour are not modelled; integers are unbounded.
- Boolean values other than `""`, `"0"` and `"1"` read as false (only `""` and `"1"` are true), and a lone `-noX` with such a value sets `-X` to `"1"`; no test fixes either.
- Three points of the parse are the model's own choices, because no test fixes them: that parsing takes two loops (collect, then resolve); that a word not starting with `-` is skipped rather than ending the parse; and that a `-noX` is removed from the map when `-X` was given, rather than kept next to it.
