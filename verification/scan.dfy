/**
 The scanning engine of `Parse`: a single left-to-right pass over the runes
 of the input that keeps a stack of scopes, a text buffer and the list of
 finished arguments, followed by an end-of-input finalisation that either
 flushes what is pending (lenient) or reports an unfinished quote or escape
 (strict).

 The stack is a sequence whose LAST element is the top. Popping an empty
 stack leaves it empty.
 */
module Scan {
  import opened Classify

  /** The lexical context: between or inside plain words, inside a quote opened by `q`, or escaping. */
  datatype Scope = Spl | Quote(q: char) | Esc

  datatype ParseError = UnfinishedQuote | UnfinishedEscape

  datatype Result<+T, +E> = Ok(value: T) | Err(error: E)

  /** The state local to one call of `Parse`. */
  datatype State = State(scopes: seq<Scope>, buf: string, args: seq<string>)

  /** The state before the first rune: a single `Spl` scope, nothing buffered, nothing produced. */
  const Initial: State := State([Spl], "", [])

  /** One base scope (`Spl` or a quote), optionally topped by exactly one `Esc`. */
  predicate WellShaped(scopes: seq<Scope>)
  {
    && 1 <= |scopes| <= 2
    && scopes[0] != Esc
    && (|scopes| == 2 ==> scopes[1] == Esc)
  }

  predicate NoEmpty(ts: seq<string>)
  {
    forall k :: 0 <= k < |ts| ==> ts[k] != []
  }

  /** The argument a buffer contributes when its scope is finished: nothing if it is empty. */
  function Flush(buf: string): (ts: seq<string>)
    ensures NoEmpty(ts)
    ensures buf != [] <==> ts == [buf]
    ensures buf == [] <==> ts == []
  {
    if buf == [] then [] else [buf]
  }

  /** All arguments one after another, as one string. */
  function Concat(ts: seq<string>): (s: string)
    ensures ts == [] ==> s == []
    decreases |ts|
  {
    if ts == [] then [] else Concat(ts[..|ts| - 1]) + ts[|ts| - 1]
  }

  /** Every rune kept so far: the finished arguments, then the buffer. */
  function Kept(st: State): (s: string)
  {
    Concat(st.args) + st.buf
  }

  function Top(scopes: seq<Scope>): (s: Scope)
    requires scopes != []
  {
    scopes[|scopes| - 1]
  }

  function Pop(scopes: seq<Scope>): (r: seq<Scope>)
    ensures r <= scopes
    ensures |r| == if scopes == [] then 0 else |scopes| - 1
  {
    if scopes == [] then [] else scopes[..|scopes| - 1]
  }

  /** Push is undone by Pop and leaves the pushed scope on top. */
  function Push(scopes: seq<Scope>, s: Scope): (r: seq<Scope>)
    ensures r != [] && Top(r) == s && Pop(r) == scopes
  {
    assert (scopes + [s])[..|scopes|] == scopes;
    scopes + [s]
  }

  /**
   `fin`: finish the scope on top. It pops one scope and empties the buffer
   into at most one new argument, never an empty one.
   */
  function Fin(st: State): (r: State)
    ensures r.scopes == Pop(st.scopes) && r.buf == []
    ensures st.args <= r.args && |r.args| <= |st.args| + 1
    ensures NoEmpty(st.args) ==> NoEmpty(r.args)
  {
    State(Pop(st.scopes), [], st.args + Flush(st.buf))
  }

  /** `acc`: append one rune to the buffer. */
  function Acc(st: State, c: char): (r: State)
  {
    st.(buf := st.buf + [c])
  }

  /** `escape` when it succeeds: the rune is appended literally and the escape scope is consumed. */
  function Escape(st: State, c: char): (r: State)
  {
    Acc(st, c).(scopes := Pop(st.scopes))
  }

  /**
   One iteration of the scanning loop on rune `c` of kind `t`. The only
   changes ever made are: append `c` to the buffer, push or pop one scope,
   and finish the top scope; so the stack keeps its shape, the finished
   arguments only grow, and every argument added is non-empty.
   */
  function Step(st: State, c: char, t: Kind): (r: State)
    requires WellShaped(st.scopes)
    ensures WellShaped(r.scopes)
    ensures st.args <= r.args
    ensures NoEmpty(st.args) ==> NoEmpty(r.args)
    ensures r.args == st.args || (r.args == st.args + [st.buf] && st.buf != [] && r.buf == [])
    ensures r.args == st.args ==> r.buf == st.buf || r.buf == st.buf + [c] || r.buf == []
  {
    var scope := Top(st.scopes);
    match t
    case Escaper =>
      if scope == Esc then Escape(st, c)
      else st.(scopes := Push(st.scopes, Esc))
    case Splitor =>
      (match scope
       case Quote(_) => Acc(st, c)
       case Esc => Escape(st, c)
       case Spl =>
         var f := Fin(st);
         f.(scopes := Push(f.scopes, Spl)))
    case QuoteMark =>
      (match scope
       case Quote(q) =>
         if c == q then
           var f := Fin(st);
           f.(scopes := Push(f.scopes, Spl))
         else Acc(st, c)
       case Esc => Escape(st, c)
       case Spl =>
         var f := Fin(st);
         f.(scopes := Push(f.scopes, Quote(c))))
    case Plain =>
      Acc(st, c)
  }

  /** The scanning loop over `text`, rune by rune from the left. */
  function Run(ap: ArgParser, st: State, text: string): (r: State)
    requires WellShaped(st.scopes)
    ensures WellShaped(r.scopes)
    ensures st.args <= r.args
    ensures NoEmpty(st.args) ==> NoEmpty(r.args)
    decreases |text|
  {
    if text == [] then st
    else Run(ap, Step(st, text[0], Check(ap, text[0])), text[1..])
  }

  /**
   End-of-input finalisation. A lenient parser flushes whatever is pending
   and never fails. A strict one succeeds only on a bare `Spl` scope; an `Esc`
   on top is an unfinished escape, a quote scope without `Esc` an unfinished
   quote, and an error carries no arguments.
   */
  function Finish(ap: ArgParser, st: State): (r: Result<seq<string>, ParseError>)
    ensures ap.lenient && st.scopes != [] ==> r == Ok(st.args + Flush(st.buf))
    ensures r.Err? ==> !ap.lenient
    ensures !ap.lenient && WellShaped(st.scopes) ==>
              && (r == Err(UnfinishedEscape) <==> Top(st.scopes) == Esc)
              && (r == Err(UnfinishedQuote) <==> |st.scopes| == 1 && st.scopes[0].Quote?)
              && (r.Ok? <==> st.scopes == [Spl])
              && (r.Ok? ==> r.value == st.args + Flush(st.buf))
  {
    if |st.scopes| == 0 then Ok(st.args)
    else if ap.lenient then Ok(Fin(st).args)
    else
      var unfinished := Top(st.scopes);
      var rest := Pop(st.scopes);
      if |rest| == 0 && unfinished == Spl then Ok(Fin(st.(scopes := rest)).args)
      else if unfinished.Quote? then Err(UnfinishedQuote)
      else if unfinished == Esc then Err(UnfinishedEscape)
      else Ok(st.args)
  }

  /**
   Tokenize `text`. Arguments are never empty, a lenient parser never fails,
   and the empty input gives no arguments in either mode.
   */
  function Parse(ap: ArgParser, text: string): (r: Result<seq<string>, ParseError>)
    ensures r.Ok? ==> NoEmpty(r.value)
    ensures ap.lenient ==> r.Ok?
    ensures text == [] ==> r == Ok([])
  {
    assert text == [] ==> Run(ap, Initial, text) == Initial;
    Finish(ap, Run(ap, Initial, text))
  }
}
