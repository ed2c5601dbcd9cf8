/**
 * Tokenizer for one command-line argument: a token that begins with '-'
 * is an option; a leading "--" is read as a single '-'; the option is split
 * on its first '=' into a key and a value, and a token without '=' has the
 * empty value.
 */
module Flags {

  datatype Option<T> = None | Some(value: T)

  /** A recognised option: its key (with its leading dash) and its value. */
  datatype Flag = Flag(key: string, value: string)

  /** A key as the tokenizer produces it: a leading dash and no '='. */
  predicate IsKey(k: string) {
    |k| > 0 && k[0] == '-' && '=' !in k
  }

  /** A key that does not itself start with "--" (so it is written back unchanged). */
  predicate SingleDash(k: string) {
    !(|k| >= 2 && k[1] == '-')
  }

  /** The position of the first '=' in s, if there is one. */
  function FindEq(s: string): (r: Option<nat>)
    ensures r.None? ==> '=' !in s
    ensures r.Some? ==> r.value < |s| && s[r.value] == '=' && '=' !in s[..r.value]
  {
    if s == [] then None
    else if s[0] == '=' then Some(0)
    else
      match FindEq(s[1..])
      case None => None
      case Some(i) =>
        assert s[..i + 1] == [s[0]] + s[1..][..i];
        Some(i + 1)
  }

  /** A leading "--" is read as a single '-'; any other word is left as it is. */
  function Normalize(tok: string): (r: string)
    ensures tok == r || tok == "-" + r
    ensures |tok| >= 2 && tok[0] == '-' && tok[1] == '-' ==> tok == "-" + r
    ensures |tok| > 0 && tok[0] == '-' ==> |r| > 0 && r[0] == '-'
  {
    if |tok| >= 2 && tok[0] == '-' && tok[1] == '-' then
      assert tok == [tok[0]] + tok[1..];
      tok[1..]
    else tok
  }

  /** The option a token stands for, or None for a token that is not an option. */
  function Classify(tok: string): Option<Flag> {
    if |tok| == 0 || tok[0] != '-' then None
    else
      var t := Normalize(tok);
      match FindEq(t)
      case None => Some(Flag(t, ""))
      case Some(i) => Some(Flag(t[..i], t[i + 1..]))
  }

  /** The tokenizer's reading of every word of a command line, in order. */
  function Tokenize(toks: seq<string>): seq<Option<Flag>> {
    seq(|toks|, i requires 0 <= i < |toks| => Classify(toks[i]))
  }

  /**
   * A token is an option exactly when it starts with '-'; its key keeps one
   * leading dash and holds no '='; its value is what follows the first '=',
   * or empty when there is none.
   */
  lemma ClassifySplit(tok: string)
    ensures Classify(tok).Some? <==> |tok| > 0 && tok[0] == '-'
    ensures Classify(tok).Some? ==> IsKey(Classify(tok).value.key)
    ensures Classify(tok).Some? ==>
      var f := Classify(tok).value;
      Normalize(tok) == f.key + "=" + f.value || (Normalize(tok) == f.key && f.value == "")
  {
    if |tok| > 0 && tok[0] == '-' {
      var t := Normalize(tok);
      match FindEq(t)
      case None =>
      case Some(i) =>
        assert t == t[..i] + "=" + t[i + 1..];
    }
  }

  /**
   * Writing a key, with or without "=value", in either the "-" or the "--"
   * form, and reading it back gives that key and value.
   */
  lemma ClassifyRender(k: string, v: string)
    requires IsKey(k) && SingleDash(k)
    ensures Classify(k) == Some(Flag(k, ""))
    ensures Classify("-" + k) == Some(Flag(k, ""))
    ensures Classify(k + "=" + v) == Some(Flag(k, v))
    ensures Classify("-" + k + "=" + v) == Some(Flag(k, v))
  {
    ClassifyBare(k);
    ClassifyWithValue(k, v);
  }

  /** A bare key, in the "-" or the "--" form, reads as that key with the empty value. */
  lemma ClassifyBare(k: string)
    requires IsKey(k) && SingleDash(k)
    ensures Classify(k) == Some(Flag(k, ""))
    ensures Classify("-" + k) == Some(Flag(k, ""))
  {
    assert Normalize(k) == k;
    assert ("-" + k)[1..] == k;
  }

  /** k=v, in the "-" or the "--" form, reads as key k with value v. */
  lemma ClassifyWithValue(k: string, v: string)
    requires IsKey(k) && SingleDash(k)
    ensures Classify(k + "=" + v) == Some(Flag(k, v))
    ensures Classify("-" + k + "=" + v) == Some(Flag(k, v))
  {
    var t := k + "=" + v;
    assert Normalize(t) == t;
    FirstEqAfterKey(k, v);
    assert t[..|k|] == k && t[|k| + 1..] == v;
    var t' := "-" + k + "=" + v;
    assert t'[1..] == t;
    assert Normalize(t') == t;
  }

  /** In k + "=" + v with no '=' in k, the first '=' is the one after k. */
  lemma FirstEqAfterKey(k: string, v: string)
    requires '=' !in k
    ensures FindEq(k + "=" + v) == Some(|k|)
  {
    var t := k + "=" + v;
    assert t[|k|] == '=' && t[..|k|] == k;
  }
}
