/**
 The configuration of the argument tokenizer and the classification of a
 single rune as escaper, quote mark, splitter or ordinary text.

 The configuration keeps the quote runes and the splitter runes in one
 string, `symbols == quotes + splitors`, and remembers how many runes of it
 are quotes (`boundary`). A rune is classified by where it first occurs in
 `symbols`: before the boundary it is a quote mark, after it a splitter.
 */
module Classify {

  /** What `check` reports for one rune. */
  datatype Kind = Escaper | QuoteMark | Splitor | Plain

  /** The immutable parser configuration. */
  datatype ArgParser = ArgParser(symbols: string, escaper: char, boundary: nat, lenient: bool)

  /** Rune index of the first occurrence of `c` in `s`, or -1 when `c` does not occur. */
  function IndexOf(s: string, c: char): (i: int)
    ensures -1 <= i < |s|
    ensures i == -1 <==> c !in s
    ensures i >= 0 ==> s[i] == c && c !in s[..i]
  {
    if s == [] then -1
    else if s[0] == c then 0
    else
      var j := IndexOf(s[1..], c);
      if j == -1 then -1 else 1 + j
  }

  /** In `q + s`, a rune is found before position |q| exactly when it occurs in `q`. */
  lemma IndexOfConcat(q: string, s: string)
    ensures forall c :: IndexOf(q + s, c) == -1 <==> c !in q && c !in s
    ensures forall c :: 0 <= IndexOf(q + s, c) < |q| <==> c in q
  {
    forall c
      ensures 0 <= IndexOf(q + s, c) < |q| <==> c in q
    {
      var i := IndexOf(q + s, c);
      if c in q {
        var j :| 0 <= j < |q| && q[j] == c;
        assert (q + s)[j] == c;
      }
      if 0 <= i < |q| {
        assert q[i] == (q + s)[i];
      }
    }
    assert forall c :: c in q + s <==> c in q || c in s;
  }

  /** The first `boundary` runes of `symbols`, cut at its end: the quote runes. */
  function QuoteRunes(ap: ArgParser): (q: string)
    ensures q <= ap.symbols
  {
    ap.symbols[..if ap.boundary <= |ap.symbols| then ap.boundary else |ap.symbols|]
  }

  /** The first occurrence of `c` lies before position `n` exactly when `c` occurs in the first `n` runes. */
  lemma IndexOfBelow(s: string, c: char, n: nat)
    requires n <= |s|
    ensures 0 <= IndexOf(s, c) < n <==> c in s[..n]
  {
    var i := IndexOf(s, c);
    if c in s[..n] {
      var j :| 0 <= j < n && s[..n][j] == c;
      assert s[j] == c && c in s;
    }
    if 0 <= i < n {
      assert s[..n][i] == c;
    }
  }

  /**
   Classify a rune. The escaper wins over everything; otherwise the first
   occurrence in `symbols` decides between quote and splitter, compared as a
   rune index with the rune count `boundary`. So a rune is a quote mark
   exactly when it occurs among the quote runes, even if it is a splitter
   rune too.
   */
  function Check(ap: ArgParser, c: char): (k: Kind)
    ensures k == Escaper <==> c == ap.escaper
    ensures k == QuoteMark <==> c != ap.escaper && c in QuoteRunes(ap)
    ensures k == Splitor <==> c != ap.escaper && c !in QuoteRunes(ap) && c in ap.symbols
    ensures k == Plain <==> c != ap.escaper && c !in ap.symbols
  {
    IndexOfBelow(ap.symbols, c, |QuoteRunes(ap)|);
    if c == ap.escaper then Escaper
    else
      var i := IndexOf(ap.symbols, c);
      if i == -1 then Plain
      else if i < ap.boundary then QuoteMark
      else Splitor
  }

  /**
   Build a configuration from the quote runes, the splitter runes, the escaper
   and the leniency flag. Its classification follows a fixed precedence:
   escaper, then quote, then splitter, then ordinary text.
   */
  function NewArgParser(quotes: string, splitors: string, escaper: char, lenient: bool): (ap: ArgParser)
    ensures ap.lenient == lenient && ap.escaper == escaper
    ensures forall c :: c == escaper ==> Check(ap, c) == Escaper
    ensures forall c :: c != escaper && c in quotes ==> Check(ap, c) == QuoteMark
    ensures forall c :: c != escaper && c !in quotes && c in splitors ==> Check(ap, c) == Splitor
    ensures forall c :: c != escaper && c !in quotes && c !in splitors ==> Check(ap, c) == Plain
  {
    IndexOfConcat(quotes, splitors);
    ArgParser(quotes + splitors, escaper, |quotes|, lenient)
  }

  /** The lenient general-purpose configuration: `"` and `'` quote, space and tab split, `\` escapes. */
  function GeneralArgParser(): (ap: ArgParser)
    ensures ap.lenient
    ensures forall c :: Check(ap, c) == (
                if c == '\\' then Escaper
                else if c == '"' || c == '\'' then QuoteMark
                else if c == ' ' || c == '\t' then Splitor
                else Plain)
  {
    NewArgParser("\"'", " \t", '\\', true)
  }
}
