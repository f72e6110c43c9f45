/**
 The classifier as the repository writes it. It looks the rune up with a
 search that reports a BYTE offset into the UTF-8 encoding of `symbols`, and
 compares that offset with `boundary`, which counts RUNES. The two agree
 while every quote rune is one byte long; a multi-byte quote rune can push
 a later quote rune's byte offset past the boundary, and that rune is then
 taken for a splitter.
 */
module ByteOffsets {
  import opened Classify
  import opened Scan

  /** Number of bytes of the UTF-8 encoding of one rune. */
  function Utf8Len(c: char): (n: nat)
    ensures 1 <= n <= 4
    ensures n == 1 <==> (c as int) < 0x80
  {
    if (c as int) < 0x80 then 1
    else if (c as int) < 0x800 then 2
    else if (c as int) < 0x1_0000 then 3
    else 4
  }

  /** Number of bytes of the UTF-8 encoding of a string. */
  function ByteLen(s: string): (n: nat)
  {
    if s == [] then 0 else Utf8Len(s[0]) + ByteLen(s[1..])
  }

  predicate IsAscii(s: string)
  {
    forall k :: 0 <= k < |s| ==> (s[k] as int) < 0x80
  }

  /** Byte offset of the first occurrence of `c` in the UTF-8 encoding of `s`, or -1. */
  function ByteIndexOf(s: string, c: char): (i: int)
    ensures -1 <= i
    ensures i == -1 <==> c !in s
  {
    if s == [] then -1
    else if s[0] == c then 0
    else
      var j := ByteIndexOf(s[1..], c);
      if j == -1 then -1 else Utf8Len(s[0]) + j
  }

  /**
   The classifier with the byte offset compared against the rune count: a
   rune is a quote mark exactly when the runes of `symbols` before its first
   occurrence take fewer than `boundary` bytes.
   */
  function CheckAsWritten(ap: ArgParser, c: char): (k: Kind)
    ensures k == Escaper <==> c == ap.escaper
    ensures k == Plain <==> c != ap.escaper && c !in ap.symbols
    ensures k == QuoteMark <==>
              c != ap.escaper && c in ap.symbols && ByteLen(ap.symbols[..IndexOf(ap.symbols, c)]) < ap.boundary
  {
    ByteIndexOfIsByteLenOfPrefix(ap.symbols, c);
    if c == ap.escaper then Escaper
    else
      var i := ByteIndexOf(ap.symbols, c);
      if i == -1 then Plain
      else if i < ap.boundary then QuoteMark
      else Splitor
  }

  /** A string is never shorter in bytes than in runes, and equal exactly for ASCII. */
  lemma {:induction false} ByteLenBounds(s: string)
    ensures ByteLen(s) >= |s|
    ensures IsAscii(s) ==> ByteLen(s) == |s|
    ensures ByteLen(s) == |s| ==> IsAscii(s)
  {
    if s != [] {
      ByteLenBounds(s[1..]);
      if ByteLen(s) == |s| {
        assert Utf8Len(s[0]) == 1;
        assert forall k :: 1 <= k < |s| ==> s[k] == s[1..][k - 1];
      }
    }
  }

  /** The byte offset of a rune is the byte length of the runes before its rune index. */
  lemma {:induction false} ByteIndexOfIsByteLenOfPrefix(s: string, c: char)
    ensures ByteIndexOf(s, c) == if IndexOf(s, c) == -1 then -1 else ByteLen(s[..IndexOf(s, c)])
  {
    if s != [] && s[0] != c {
      ByteIndexOfIsByteLenOfPrefix(s[1..], c);
      var j := IndexOf(s[1..], c);
      if j != -1 {
        assert s[..1 + j][1..] == s[1..][..j];
      }
    }
  }

  /**
   Both classifiers agree on the escaper and on ordinary text; where they
   disagree, the rune occurs among the quotes and the as-written classifier
   calls it a splitter. A splitter is never taken for a quote.
   */
  lemma AsWrittenOnlyDemotesQuotes(ap: ArgParser, c: char)
    ensures CheckAsWritten(ap, c) == Escaper <==> Check(ap, c) == Escaper
    ensures CheckAsWritten(ap, c) == Plain <==> Check(ap, c) == Plain
    ensures CheckAsWritten(ap, c) != Check(ap, c) ==>
              Check(ap, c) == QuoteMark && CheckAsWritten(ap, c) == Splitor
  {
    ByteIndexOfIsByteLenOfPrefix(ap.symbols, c);
    var i := IndexOf(ap.symbols, c);
    if i != -1 {
      ByteLenBounds(ap.symbols[..i]);
    }
  }

  /** With single-byte quote runes both classifiers agree on every rune. */
  lemma AsWrittenAgreesOnAsciiQuotes(quotes: string, splitors: string, escaper: char, lenient: bool, c: char)
    requires IsAscii(quotes)
    ensures CheckAsWritten(NewArgParser(quotes, splitors, escaper, lenient), c)
         == Check(NewArgParser(quotes, splitors, escaper, lenient), c)
  {
    var ap := NewArgParser(quotes, splitors, escaper, lenient);
    ByteIndexOfIsByteLenOfPrefix(ap.symbols, c);
    var i := IndexOf(ap.symbols, c);
    if 0 <= i < |quotes| {
      assert ap.symbols[..i] == quotes[..i];
      assert IsAscii(quotes[..i]) by {
        assert forall k :: 0 <= k < i ==> quotes[..i][k] == quotes[k];
      }
      ByteLenBounds(quotes[..i]);
    } else if i != -1 {
      ByteLenBounds(ap.symbols[..i]);
    }
  }

  /**
   Quotes `«` and `»` (two bytes each) with space as splitter: `»` occurs at
   rune index 1, below the boundary 2, but at byte offset 2, which is not.
   */
  lemma MultiByteQuoteTakenForSplitter()
    ensures CheckAsWritten(NewArgParser("\U{00AB}\U{00BB}", " ", '\\', false), '\U{00BB}') == Splitor
    ensures Check(NewArgParser("\U{00AB}\U{00BB}", " ", '\\', false), '\U{00BB}') == QuoteMark
  {
  }

  /** The scanning loop of `Parse` driven by the classifier as written. */
  function RunAsWritten(ap: ArgParser, st: State, text: string): (r: State)
    requires WellShaped(st.scopes)
    ensures WellShaped(r.scopes)
    ensures st.args <= r.args
    ensures NoEmpty(st.args) ==> NoEmpty(r.args)
    decreases |text|
  {
    if text == [] then st
    else RunAsWritten(ap, Step(st, text[0], CheckAsWritten(ap, text[0])), text[1..])
  }

  /** `Parse` as written: the same scan and finalisation, classified by byte offsets. */
  function ParseAsWritten(ap: ArgParser, text: string): (r: Result<seq<string>, ParseError>)
    ensures r.Ok? ==> NoEmpty(r.value)
    ensures ap.lenient ==> r.Ok?
  {
    Finish(ap, RunAsWritten(ap, Initial, text))
  }

  /** With single-byte quote runes the scan as written is the scan of the model. */
  lemma {:induction false} AsciiQuotesRunAlike(quotes: string, splitors: string, escaper: char, lenient: bool, st: State, text: string)
    requires IsAscii(quotes)
    requires WellShaped(st.scopes)
    ensures RunAsWritten(NewArgParser(quotes, splitors, escaper, lenient), st, text)
         == Run(NewArgParser(quotes, splitors, escaper, lenient), st, text)
    decreases |text|
  {
    if text != [] {
      var ap := NewArgParser(quotes, splitors, escaper, lenient);
      AsWrittenAgreesOnAsciiQuotes(quotes, splitors, escaper, lenient, text[0]);
      AsciiQuotesRunAlike(quotes, splitors, escaper, lenient, Step(st, text[0], Check(ap, text[0])), text[1..]);
    }
  }

  /** With single-byte quote runes, `Parse` as written returns what the model's `Parse` returns, on every input. */
  lemma AsciiQuotesParseAlike(quotes: string, splitors: string, escaper: char, lenient: bool, text: string)
    requires IsAscii(quotes)
    ensures ParseAsWritten(NewArgParser(quotes, splitors, escaper, lenient), text)
         == Parse(NewArgParser(quotes, splitors, escaper, lenient), text)
  {
    AsciiQuotesRunAlike(quotes, splitors, escaper, lenient, Initial, text);
  }
}
