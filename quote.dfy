/**
 * `decode_single_quote`: turns every `\'` of a single-quoted text back into
 * `'` and copies everything else, including lone backslashes, as it is.
 */
module Quote {
  import opened Wrappers

  /**
   * The decoding, read left to right: `\'` gives `'` and skips both
   * characters; any other character, a backslash included, is copied.
   */
  function Unescape(s: string): (r: string)
    ensures |r| <= |s|
  {
    if s == [] then []
    else if s[0] == '\\' && |s| > 1 && s[1] == '\'' then "'" + Unescape(s[2..])
    else [s[0]] + Unescape(s[1..])
  }

  /**
   * The loop of `decode_single_quote`, returning the string it accumulates
   * in `result`.
   */
  method DecodeSingleQuote(encoded: string) returns (result: string)
    ensures result == Unescape(encoded)
    ensures |result| <= |encoded|
  {
    result := "";
    var i := 0;
    while i < |encoded|
      invariant 0 <= i <= |encoded|
      invariant result + Unescape(encoded[i..]) == Unescape(encoded)
      decreases |encoded| - i
    {
      if encoded[i] == '\\' {
        if i + 1 < |encoded| && encoded[i + 1] == '\'' {
          assert encoded[i..][2..] == encoded[i + 2..];
          result := result + "'";
          i := i + 2;
        } else {
          assert encoded[i..][1..] == encoded[i + 1..];
          result := result + [encoded[i]];
          i := i + 1;
        }
      } else {
        assert encoded[i..][1..] == encoded[i + 1..];
        result := result + [encoded[i]];
        i := i + 1;
      }
    }
  }

  /**
   * `decode_single_quote` as written: its last expression is the `while`
   * loop, whose value is `nil`, so the decoded `result` never reaches the caller.
   */
  method DecodeSingleQuoteAsWritten(encoded: string) returns (value: Option<string>)
    ensures value == None
  {
    var _ := DecodeSingleQuote(encoded);
    value := None;
  }

  /** The decoded text the as-written method drops: `it\'s` decodes to `it's`, yet the method yields `nil`. */
  lemma AsWrittenDropsDecoding()
    ensures Unescape("it\\'s") == "it's"
  {
  }

  /** A text without any backslash decodes to itself. */
  lemma {:induction false} NoBackslashUnchanged(s: string)
    requires forall i :: 0 <= i < |s| ==> s[i] != '\\'
    ensures Unescape(s) == s
  {
    if s != [] {
      NoBackslashUnchanged(s[1..]);
    }
  }

  /** A backslash not followed by a quote, a trailing one included, is copied. */
  lemma LoneBackslashCopied(t: string)
    requires t == [] || t[0] != '\''
    ensures Unescape("\\" + t) == "\\" + Unescape(t)
  {
  }

  /** The encoding `decode_single_quote` undoes: every `'` written as `\'`. */
  function Escape(s: string): (r: string)
    ensures |r| == |s| + multiset(s)['\'']
    ensures r != [] ==> r[0] != '\''
    ensures forall i :: 0 <= i < |r| && r[i] == '\'' ==> 0 < i && r[i - 1] == '\\'
  {
    if s == [] then []
    else
      assert s == [s[0]] + s[1..];
      if s[0] == '\'' then "\\'" + Escape(s[1..])
      else [s[0]] + Escape(s[1..])
  }

  /** Round trip: decoding an escaped text gives the text back. */
  lemma {:induction false} UnescapeEscape(s: string)
    ensures Unescape(Escape(s)) == s
  {
    if s != [] {
      UnescapeEscape(s[1..]);
      var e := Escape(s);
      if s[0] == '\'' {
        assert e[2..] == Escape(s[1..]);
      } else {
        assert e[1..] == Escape(s[1..]);
      }
    }
  }
}
