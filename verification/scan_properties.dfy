/**
 Properties of the scanning engine that relate several steps: how a quoted
 span, a pending escape and a run of splitters behave over whole stretches
 of input, what strict and lenient parsing have in common, and that parsing
 undoes escape-encoding.
 */
module ScanProperties {
  import opened Classify
  import opened Scan

  /** Scanning `a + b` is scanning `a`, then scanning `b` from where `a` left off. */
  lemma {:induction false} RunAppend(ap: ArgParser, st: State, a: string, b: string)
    requires WellShaped(st.scopes)
    ensures Run(ap, st, a + b) == Run(ap, Run(ap, st, a), b)
    decreases |a|
  {
    if a != [] {
      assert (a + b)[0] == a[0] && (a + b)[1..] == a[1..] + b;
      RunAppend(ap, Step(st, a[0], Check(ap, a[0])), a[1..], b);
    } else {
      assert a + b == b;
    }
  }

  /**
   The closures lose no text: `fin` moves the buffer to the arguments
   without dropping a rune, and `acc` and a successful `escape` keep exactly
   the rune they are given.
   */
  lemma ClosuresKeepRunes(st: State, c: char)
    ensures Kept(Fin(st)) == Kept(st)
    ensures Kept(Acc(st, c)) == Kept(st) + [c]
    ensures Kept(Escape(st, c)) == Kept(st) + [c]
  {
    assert (st.args + [st.buf])[..|st.args|] == st.args;
    assert st.args + Flush(st.buf) == st.args || st.buf != [];
    assert Concat(st.args + Flush(st.buf)) + [] == Concat(st.args) + st.buf;
  }

  /**
   Whether the loop keeps rune `c` of kind `t` as text with `scope` on top:
   ordinary text always, anything escaped, and inside a quote every
   splitter and every quote rune but the closing one.
   */
  predicate KeptLiterally(scope: Scope, c: char, t: Kind)
  {
    || t == Plain
    || scope == Esc
    || (scope.Quote? && t == Splitor)
    || (scope.Quote? && t == QuoteMark && c != scope.q)
  }

  /**
   One loop iteration either keeps its rune as text or drops it, and drops
   exactly the runes that open an escape or a quote, close a quote, or split.
   */
  lemma StepKeepsRunes(st: State, c: char, t: Kind)
    requires WellShaped(st.scopes)
    ensures Kept(Step(st, c, t)) == if KeptLiterally(Top(st.scopes), c, t) then Kept(st) + [c] else Kept(st)
  {
    ClosuresKeepRunes(st, c);
  }

  /** The scanning loop never looks at the leniency flag. */
  lemma {:induction false} RunIgnoresLeniency(ap: ArgParser, st: State, text: string, lenient: bool)
    requires WellShaped(st.scopes)
    ensures Run(ap.(lenient := lenient), st, text) == Run(ap, st, text)
    decreases |text|
  {
    if text != [] {
      assert Check(ap.(lenient := lenient), text[0]) == Check(ap, text[0]);
      RunIgnoresLeniency(ap, Step(st, text[0], Check(ap, text[0])), text[1..], lenient);
    }
  }

  /**
   Strict parsing fails exactly when the scan ends in anything but a bare
   `Spl` scope; when it succeeds, lenient parsing gives the same arguments.
   */
  lemma {:induction false} StrictSuccessAgreesWithLenient(ap: ArgParser, text: string)
    ensures Parse(ap.(lenient := false), text).Ok? <==> Run(ap, Initial, text).scopes == [Spl]
    ensures Parse(ap.(lenient := false), text).Ok? ==>
              Parse(ap.(lenient := false), text) == Parse(ap.(lenient := true), text)
  {
    RunIgnoresLeniency(ap, Initial, text, false);
    RunIgnoresLeniency(ap, Initial, text, true);
  }

  /**
   Inside a quote opened by `q`, every rune other than the escaper and `q`
   itself — splitters and other quote runes included — is appended as text,
   and the quote stays open.
   */
  lemma {:induction false} InsideQuote(ap: ArgParser, q: char, buf: string, args: seq<string>, w: string)
    requires forall k :: 0 <= k < |w| ==> w[k] != q && Check(ap, w[k]) != Escaper
    ensures Run(ap, State([Quote(q)], buf, args), w) == State([Quote(q)], buf + w, args)
    decreases |w|
  {
    if w != [] {
      assert buf + w == (buf + [w[0]]) + w[1..];
      InsideQuote(ap, q, buf + [w[0]], args, w[1..]);
    }
  }

  /**
   A quoted span `q w q` typed in unquoted context finishes the pending
   buffer as its own argument, makes `w` one argument (none if `w` is empty)
   and returns to unquoted context: `ab"cd"` gives `ab` and `cd`.
   */
  lemma {:induction false} QuotedSpan(ap: ArgParser, q: char, buf: string, args: seq<string>, w: string)
    requires Check(ap, q) == QuoteMark
    requires forall k :: 0 <= k < |w| ==> w[k] != q && Check(ap, w[k]) != Escaper
    ensures Run(ap, State([Spl], buf, args), [q] + w + [q]) == State([Spl], [], args + Flush(buf) + Flush(w))
  {
    var inQuote := State([Quote(q)], [], args + Flush(buf));
    assert Step(State([Spl], buf, args), q, QuoteMark) == inQuote;
    RunAppend(ap, State([Spl], buf, args), [q], w + [q]);
    assert [q] + w + [q] == [q] + (w + [q]);
    RunAppend(ap, inQuote, w, [q]);
    InsideQuote(ap, q, [], args + Flush(buf), w);
    assert [] + w == w;
  }

  /**
   Ordinary text never changes the stack: it is appended to the buffer
   whatever scopes are open. In particular a pending escape is not consumed
   by it and stays on top.
   */
  lemma {:induction false} OrdinaryTextAppends(ap: ArgParser, scopes: seq<Scope>, buf: string, args: seq<string>, w: string)
    requires WellShaped(scopes)
    requires forall k :: 0 <= k < |w| ==> Check(ap, w[k]) == Plain
    ensures Run(ap, State(scopes, buf, args), w) == State(scopes, buf + w, args)
    decreases |w|
  {
    if w != [] {
      assert buf + w == (buf + [w[0]]) + w[1..];
      OrdinaryTextAppends(ap, scopes, buf + [w[0]], args, w[1..]);
    }
  }

  /**
   An escape followed by ordinary text and then an escaper, quote or splitter
   rune `c`: everything, `c` included, is appended literally and the escape
   is consumed. So `a\ b` keeps the space and `\x\` yields `x\`.
   */
  lemma {:induction false} EscapeTakesNextSpecial(ap: ArgParser, base: Scope, buf: string, args: seq<string>, w: string, c: char)
    requires base != Esc
    requires forall k :: 0 <= k < |w| ==> Check(ap, w[k]) == Plain
    requires Check(ap, c) != Plain
    ensures Run(ap, State([base], buf, args), [ap.escaper] + w + [c]) == State([base], buf + w + [c], args)
  {
    var st := State([base], buf, args);
    var escaping := State([base, Esc], buf, args);
    assert Step(st, ap.escaper, Check(ap, ap.escaper)) == escaping;
    assert [ap.escaper] + w + [c] == [ap.escaper] + (w + [c]);
    RunAppend(ap, st, [ap.escaper], w + [c]);
    RunAppend(ap, escaping, w, [c]);
    OrdinaryTextAppends(ap, [base, Esc], buf, args, w);
  }

  // ---------------------------------------------------------------------
  // Plain splitting: without quote and escaper runes, Parse is "split on
  // runs of splitter runes and drop the empty pieces".
  // ---------------------------------------------------------------------

  /** Length of the longest prefix of `s` that holds no splitter rune. */
  function WordLen(splitors: string, s: string): (n: nat)
    ensures n <= |s|
    ensures forall k :: 0 <= k < n ==> s[k] !in splitors
    ensures n < |s| ==> s[n] in splitors
  {
    if s == [] || s[0] in splitors then 0 else 1 + WordLen(splitors, s[1..])
  }

  /** The maximal splitter-free pieces of `s`, in order. */
  function Fields(splitors: string, s: string): (fs: seq<string>)
    decreases |s|
  {
    if s == [] then []
    else if s[0] in splitors then Fields(splitors, s[1..])
    else
      var n := WordLen(splitors, s);
      [s[..n]] + Fields(splitors, s[n..])
  }

  predicate NoSplitor(splitors: string, w: string)
  {
    forall k :: 0 <= k < |w| ==> w[k] !in splitors
  }

  /** A splitter-free word followed by the end or by a splitter is one field on its own. */
  lemma FieldsAfterWord(splitors: string, w: string, rest: string)
    requires NoSplitor(splitors, w)
    requires rest == [] || rest[0] in splitors
    ensures Fields(splitors, w + rest) == Flush(w) + Fields(splitors, rest)
  {
    if w == [] {
      assert w + rest == rest;
    } else {
      WordLenOfWord(splitors, w, rest);
      assert (w + rest)[..|w|] == w && (w + rest)[|w|..] == rest;
    }
  }

  /**
   A splitter right after a splitter-free word ends that word and is
   otherwise dropped; stated after a prefix `args` of earlier arguments.
   */
  lemma FieldsAtSplitor(splitors: string, args: seq<string>, w: string, text: string)
    requires NoSplitor(splitors, w)
    requires text != [] && text[0] in splitors
    ensures args + Fields(splitors, w + text) == (args + Flush(w)) + Fields(splitors, [] + text[1..])
  {
    FieldsAfterWord(splitors, w, text);
    assert Fields(splitors, text) == Fields(splitors, text[1..]);
    assert [] + text[1..] == text[1..];
    Associative(args, Flush(w), Fields(splitors, text[1..]));
  }

  /** On `w + rest` with `w` splitter-free and `rest` starting at a splitter, the word is `w`. */
  lemma {:induction false} WordLenOfWord(splitors: string, w: string, rest: string)
    requires NoSplitor(splitors, w)
    requires rest == [] || rest[0] in splitors
    ensures WordLen(splitors, w + rest) == |w|
    decreases |w|
  {
    if w != [] {
      assert (w + rest)[1..] == w[1..] + rest;
      WordLenOfWord(splitors, w[1..], rest);
    } else {
      assert w + rest == rest;
    }
  }

  /**
   From unquoted context with a splitter-free buffer, scanning text whose
   runes are all splitters or ordinary text produces, once flushed, the
   fields of buffer and text.
   */
  lemma {:induction false} PlainRun(ap: ArgParser, splitors: string, buf: string, args: seq<string>, text: string)
    requires NoSplitor(splitors, buf)
    requires forall k :: 0 <= k < |text| ==> Check(ap, text[k]) == if text[k] in splitors then Splitor else Plain
    ensures var r := Run(ap, State([Spl], buf, args), text);
            r.scopes == [Spl] && r.args + Flush(r.buf) == args + Fields(splitors, buf + text)
    decreases |text|
  {
    if text == [] {
      FieldsAfterWord(splitors, buf, []);
      assert buf + text == buf + [] == buf;
    } else {
      var c := text[0];
      if c in splitors {
        PlainSplitorStep(ap, buf, args, text);
        FieldsAtSplitor(splitors, args, buf, text);
        PlainRun(ap, splitors, [], args + Flush(buf), text[1..]);
      } else {
        OrdinaryTextAppends(ap, [Spl], buf, args, [c]);
        RunAppend(ap, State([Spl], buf, args), [c], text[1..]);
        assert [c] + text[1..] == text;
        assert Run(ap, State([Spl], buf, args), text) == Run(ap, State([Spl], buf + [c], args), text[1..]);
        assert buf + text == (buf + [c]) + text[1..];
        PlainRun(ap, splitors, buf + [c], args, text[1..]);
      }
    }
  }

  /** A splitter in unquoted context finishes the buffer and opens a fresh `Spl` scope. */
  lemma PlainSplitorStep(ap: ArgParser, buf: string, args: seq<string>, text: string)
    requires text != [] && Check(ap, text[0]) == Splitor
    ensures Run(ap, State([Spl], buf, args), text) == Run(ap, State([Spl], [], args + Flush(buf)), text[1..])
  {
    assert Step(State([Spl], buf, args), text[0], Splitor) == State([Spl], [], args + Flush(buf));
  }

  /**
   For input holding no quote rune and no escaper, both modes return the
   fields of the input: the maximal runs of non-splitter runes, in order.
   */
  lemma {:induction false} PlainSplitting(quotes: string, splitors: string, escaper: char, lenient: bool, text: string)
    requires forall k :: 0 <= k < |text| ==> text[k] != escaper && text[k] !in quotes
    ensures Parse(NewArgParser(quotes, splitors, escaper, lenient), text) == Ok(Fields(splitors, text))
  {
    var ap := NewArgParser(quotes, splitors, escaper, lenient);
    forall k | 0 <= k < |text|
      ensures Check(ap, text[k]) == if text[k] in splitors then Splitor else Plain
    {
      assert text[k] != escaper && text[k] !in quotes;
    }
    PlainRun(ap, splitors, [], [], text);
    assert [] + text == text;
    var r := Run(ap, Initial, text);
    assert r.scopes == [Spl] && r.args + Flush(r.buf) == [] + Fields(splitors, text);
    assert [] + Fields(splitors, text) == Fields(splitors, text);
  }

  // ---------------------------------------------------------------------
  // Round trip: escape every rune that is not ordinary text, join the
  // words with one splitter, and Parse gives the words back.
  // ---------------------------------------------------------------------

  /** Prefix every escaper, quote and splitter rune of `w` with the escaper. */
  function EscapeWord(ap: ArgParser, w: string): (e: string)
  {
    if w == [] then []
    else if Check(ap, w[0]) == Plain then [w[0]] + EscapeWord(ap, w[1..])
    else [ap.escaper, w[0]] + EscapeWord(ap, w[1..])
  }

  /** The escaped words separated by the splitter `sep`. */
  function Join(ap: ArgParser, sep: char, ts: seq<string>): (s: string)
  {
    if ts == [] then []
    else if |ts| == 1 then EscapeWord(ap, ts[0])
    else EscapeWord(ap, ts[0]) + [sep] + Join(ap, sep, ts[1..])
  }

  /** In unquoted context an escaped word is appended to the buffer verbatim. */
  lemma {:induction false} RunEscapedWord(ap: ArgParser, buf: string, args: seq<string>, w: string, rest: string)
    ensures Run(ap, State([Spl], buf, args), EscapeWord(ap, w) + rest)
         == Run(ap, State([Spl], buf + w, args), rest)
    decreases |w|
  {
    if w == [] {
      assert EscapeWord(ap, w) + rest == rest && buf + w == buf;
    } else {
      var c := w[0];
      var st := State([Spl], buf, args);
      var tail := EscapeWord(ap, w[1..]) + rest;
      assert buf + w == (buf + [c]) + w[1..];
      if Check(ap, c) == Plain {
        assert EscapeWord(ap, w) + rest == [c] + tail;
        assert Step(st, c, Plain) == State([Spl], buf + [c], args);
      } else {
        assert EscapeWord(ap, w) + rest == [ap.escaper] + ([c] + tail);
        var escaping := Step(st, ap.escaper, Check(ap, ap.escaper));
        assert escaping == State([Spl, Esc], buf, args);
        assert Step(escaping, c, Check(ap, c)) == State([Spl], buf + [c], args);
      }
      RunEscapedWord(ap, buf + [c], args, w[1..], rest);
    }
  }

  /** Scanning the joined words finishes all but the last word and leaves the last one buffered. */
  lemma {:induction false} RunJoin(ap: ArgParser, sep: char, args: seq<string>, ts: seq<string>)
    requires Check(ap, sep) == Splitor
    requires |ts| >= 1 && NoEmpty(ts)
    ensures Run(ap, State([Spl], [], args), Join(ap, sep, ts))
         == State([Spl], ts[|ts| - 1], args + ts[..|ts| - 1])
    decreases |ts|
  {
    var first := ts[0];
    var rest := if |ts| == 1 then [] else [sep] + Join(ap, sep, ts[1..]);
    assert Join(ap, sep, ts) == EscapeWord(ap, first) + rest;
    RunEscapedWord(ap, [], args, first, rest);
    assert [] + first == first;
    if |ts| == 1 {
      assert args + ts[..0] == args;
    } else {
      var tail := ts[1..];
      assert first != [];
      PlainSplitorStep(ap, first, args, rest);
      assert rest[1..] == Join(ap, sep, tail);
      RunJoin(ap, sep, args + [first], tail);
      ShiftFirst(args, ts);
      calc {
        Run(ap, State([Spl], [], args), Join(ap, sep, ts));
        Run(ap, State([Spl], first, args), rest);
        Run(ap, State([Spl], [], args + [first]), Join(ap, sep, tail));
        State([Spl], tail[|tail| - 1], (args + [first]) + tail[..|tail| - 1]);
        State([Spl], ts[|ts| - 1], args + ts[..|ts| - 1]);
      }
    }
  }

  /** Moving the first word from the pending list onto the finished arguments. */
  lemma ShiftFirst<T>(args: seq<T>, ts: seq<T>)
    requires |ts| >= 2
    ensures (args + [ts[0]]) + ts[1..][..|ts[1..]| - 1] == args + ts[..|ts| - 1]
    ensures ts[1..][|ts[1..]| - 1] == ts[|ts| - 1]
  {
  }

  /**
   Parsing undoes escape-encoding: non-empty words, escaped and joined with
   a splitter rune, parse back to exactly those words in either mode.
   */
  lemma {:induction false} RoundTrip(ap: ArgParser, sep: char, ts: seq<string>)
    requires Check(ap, sep) == Splitor
    requires NoEmpty(ts)
    ensures Parse(ap, Join(ap, sep, ts)) == Ok(ts)
  {
    if ts != [] {
      var text := Join(ap, sep, ts);
      var last := ts[|ts| - 1];
      RunJoin(ap, sep, [], ts);
      assert [] + ts[..|ts| - 1] == ts[..|ts| - 1];
      FinishOnSpl(ap, Run(ap, Initial, text));
      assert last != [];
      DropLast(ts);
    }
  }

  /** Regrouping a concatenation. */
  lemma Associative<T>(a: seq<T>, b: seq<T>, c: seq<T>)
    ensures a + (b + c) == (a + b) + c
  {
  }

  /** A non-empty sequence is its front followed by its last element. */
  lemma DropLast<T>(s: seq<T>)
    requires s != []
    ensures s[..|s| - 1] + [s[|s| - 1]] == s
  {
  }

  /** A scan that ends in a bare `Spl` scope is finished, in either mode, into its arguments and the flushed buffer. */
  lemma FinishOnSpl(ap: ArgParser, st: State)
    requires st.scopes == [Spl]
    ensures Finish(ap, st) == Ok(st.args + Flush(st.buf))
  {
  }

}
