/**
 Two tokenizers, one that keeps an index and one that cuts its buffer with
 terminators. Both give the maximal non-empty runs free of delimiters, in order.
 */
module Tokenizers {
  import opened Options

  /** The characters from `start` up to, not including, `end`. */
  datatype Span = Span(start: nat, end: nat)

  ghost predicate Free(text: string, delims: string, i: nat, j: nat)
    requires i <= j <= |text|
  {
    forall k :: i <= k < j ==> text[k] !in delims
  }

  /** A maximal, non-empty run free of delimiters. */
  ghost predicate IsRun(text: string, delims: string, s: Span) {
    && s.start < s.end <= |text| && Free(text, delims, s.start, s.end)
    && (s.start == 0 || text[s.start - 1] in delims)
    && (s.end == |text| || text[s.end] in delims)
  }

  /** The first index from `i` on that is not a delimiter. */
  function SkipDelimiters(text: string, delims: string, i: nat): (j: nat)
    requires i <= |text|
    ensures i <= j <= |text| && (forall k :: i <= k < j ==> text[k] in delims)
    ensures j < |text| ==> text[j] !in delims
    decreases |text| - i
  {
    if i < |text| && text[i] in delims then SkipDelimiters(text, delims, i + 1) else i
  }

  /** The first index from `i` on that is a delimiter. */
  function SkipToken(text: string, delims: string, i: nat): (j: nat)
    requires i <= |text|
    ensures i <= j <= |text| && Free(text, delims, i, j)
    ensures j < |text| ==> text[j] in delims
    ensures i < |text| && text[i] !in delims ==> i < j
    decreases |text| - i
  {
    if i < |text| && text[i] !in delims then SkipToken(text, delims, i + 1) else i
  }

  /** The runs from index `i` on. */
  function Runs(text: string, delims: string, i: nat): seq<Span>
    requires i <= |text|
    decreases |text| - i
  {
    var start := SkipDelimiters(text, delims, i);
    if start == |text| then []
    else
      var end := SkipToken(text, delims, start);
      [Span(start, end)] + Runs(text, delims, end)
  }

  /** An index at which no run is cut in two. */
  ghost predicate Between(text: string, delims: string, i: nat) {
    i <= |text| && (i == 0 || i == |text| || text[i - 1] in delims || text[i] in delims)
  }

  ghost predicate Ordered(runs: seq<Span>) {
    forall a, b :: 0 <= a < b < |runs| ==> runs[a].end <= runs[b].start
  }

  lemma {:induction false} RunsAreRuns(text: string, delims: string, i: nat)
    requires Between(text, delims, i)
    ensures forall s <- Runs(text, delims, i) :: IsRun(text, delims, s) && i <= s.start
    ensures Ordered(Runs(text, delims, i))
    decreases |text| - i
  {
    var start := SkipDelimiters(text, delims, i);
    if start < |text| {
      var end := SkipToken(text, delims, start);
      var rest := Runs(text, delims, end);
      assert IsRun(text, delims, Span(start, end));
      RunsAreRuns(text, delims, end);
      assert Runs(text, delims, i) == [Span(start, end)] + rest;
      assert forall a :: 0 <= a < |rest| ==> rest[a] in rest;
    }
  }

  lemma {:induction false} EveryRunIsFound(text: string, delims: string, i: nat, s: Span)
    requires i <= s.start && IsRun(text, delims, s)
    ensures s in Runs(text, delims, i)
    decreases |text| - i
  {
    var start := SkipDelimiters(text, delims, i);
    assert text[s.start] !in delims;
    var end := SkipToken(text, delims, start);
    if s.start < end {
      assert start == s.start;
    } else {
      EveryRunIsFound(text, delims, end, s);
    }
  }

  /** The runs are exactly the maximal non-empty runs free of delimiters. */
  lemma RunsExactly(text: string, delims: string, s: Span)
    ensures s in Runs(text, delims, 0) <==> IsRun(text, delims, s)
  {
    RunsAreRuns(text, delims, 0);
    if IsRun(text, delims, s) {
      EveryRunIsFound(text, delims, 0, s);
    }
  }

  ghost predicate IsToken(token: string, text: string, s: Span) {
    s.start <= s.end <= |text| && token == text[s.start..s.end]
  }

  /** `tokens` are the texts of the first runs, in order. */
  ghost predicate Texts(tokens: seq<string>, text: string, runs: seq<Span>) {
    |tokens| <= |runs| && forall i :: 0 <= i < |tokens| ==> IsToken(tokens[i], text, runs[i])
  }

  // ----- The tokenizer with an index -----

  class StringTokenizer {
    var text: string
    var delimiters: string
    var currentIndex: nat

    ghost predicate Valid()
      reads this
    {
      currentIndex <= |text|
    }

    ghost function Remaining(): seq<Span>
      requires Valid()
      reads this
    {
      Runs(text, delimiters, currentIndex)
    }

    constructor (str: string, delims: string)
      ensures Valid() && text == str && delimiters == delims && currentIndex == 0
    {
      text, delimiters, currentIndex := str, delims, 0;
    }

    method Reset(str: string)
      modifies this
      ensures Valid() && text == str && delimiters == old(delimiters) && Remaining() == Runs(str, delimiters, 0)
    {
      text, currentIndex := str, 0;
    }

    /** True exactly while runs remain. */
    method HasNextToken() returns (more: bool)
      requires Valid()
      ensures more <==> Remaining() != []
    {
      var start := TokenStart(currentIndex);
      more := start != |text|;
    }

    /** The next run, or the empty string when none remains. */
    method NextToken() returns (token: string)
      requires Valid()
      modifies `currentIndex
      ensures Valid()
      ensures if old(Remaining()) == [] then token == [] else IsToken(token, text, old(Remaining())[0])
      ensures Remaining() == if old(Remaining()) == [] then [] else old(Remaining())[1..]
    {
      currentIndex := TokenStart(currentIndex);
      if currentIndex == |text| {
        return [];
      }
      var start := currentIndex;
      var last := TokenEnd(start);
      var end := last + 1;
      currentIndex := end;
      token := text[start..end];
    }

    method TokenStart(startIndex: nat) returns (start: nat)
      requires startIndex <= |text|
      ensures start == SkipDelimiters(text, delimiters, startIndex)
    {
      for i := startIndex to |text|
        invariant SkipDelimiters(text, delimiters, i) == SkipDelimiters(text, delimiters, startIndex)
      {
        var isDelim := false;
        for d := 0 to |delimiters|
          invariant !isDelim && text[i] !in delimiters[..d]
        {
          if text[i] == delimiters[d] {
            isDelim := true;
            break;
          }
        }
        if !isDelim {
          return i;
        }
      }
      return |text|;
    }

    /** The last index of the token that starts here. */
    method TokenEnd(startIndex: nat) returns (last: nat)
      requires startIndex < |text| && text[startIndex] !in delimiters
      ensures last + 1 == SkipToken(text, delimiters, startIndex)
    {
      for i := startIndex to |text|
        invariant SkipToken(text, delimiters, i) == SkipToken(text, delimiters, startIndex)
      {
        for d := 0 to |delimiters|
          invariant text[i] !in delimiters[..d]
        {
          if text[i] == delimiters[d] {
            return i - 1;
          }
        }
      }
      return |text| - 1;
    }
  }

  /** Iterating the tokenizer gives every run. */
  method Tokenize(text: string, delims: string) returns (tokens: seq<string>)
    ensures |tokens| == |Runs(text, delims, 0)| && Texts(tokens, text, Runs(text, delims, 0))
  {
    var t := new StringTokenizer(text, delims);
    tokens := [];
    ghost var runs := t.Remaining();
    var more := t.HasNextToken();
    while more
      invariant t.Valid() && t.text == text && t.delimiters == delims
      invariant Texts(tokens, text, runs) && t.Remaining() == runs[|tokens|..]
      invariant more <==> |tokens| < |runs|
      decreases |runs| - |tokens|
    {
      var token := t.NextToken();
      tokens := tokens + [token];
      more := t.HasNextToken();
    }
  }

  // ----- The tokenizer that cuts its buffer -----

  /** The string that starts at `i`, up to the terminator. */
  function CString(buffer: seq<char>, i: nat): string
    decreases |buffer| - i
  {
    if i >= |buffer| || buffer[i] == '\0' then [] else [buffer[i]] + CString(buffer, i + 1)
  }

  lemma {:induction false} CStringIs(buffer: seq<char>, i: nat, end: nat)
    requires i <= end < |buffer| && buffer[end] == '\0' && '\0' !in buffer[i..end]
    ensures CString(buffer, i) == buffer[i..end]
    decreases end - i
  {
    if i < end {
      assert buffer[i] == buffer[i..end][0] && buffer[i + 1..end] == buffer[i..end][1..];
      CStringIs(buffer, i + 1, end);
    }
  }

  /** The buffer holds the text from index `i` on, and its terminator. */
  ghost predicate HoldsFrom(buffer: seq<char>, text: string, i: nat) {
    && i <= |text| < |buffer| && buffer[|text|] == '\0'
    && forall k :: i <= k < |text| ==> buffer[k] == text[k]
  }

  /** The token at `s` can be read from the buffer as a string. */
  ghost predicate CutAt(buffer: seq<char>, text: string, s: Span) {
    && s.start < s.end <= |text| < |buffer| && buffer[s.end] == '\0'
    && forall k :: s.start <= k < s.end ==> buffer[k] == text[k]
  }

  lemma CutToken(buffer: seq<char>, text: string, s: Span)
    requires CutAt(buffer, text, s) && '\0' !in text
    ensures IsToken(CString(buffer, s.start), text, s)
  {
    assert buffer[s.start..s.end] == text[s.start..s.end];
    CStringIs(buffer, s.start, s.end);
  }

  /** Every token so far can be read from the buffer. */
  ghost predicate AllCut(buffer: seq<char>, text: string, runs: seq<Span>, tokens: seq<nat>) {
    && |tokens| <= |runs|
    && forall i :: 0 <= i < |tokens| ==> tokens[i] == runs[i].start && CutAt(buffer, text, runs[i])
  }

  /** Cutting off a later token leaves the earlier ones readable. */
  lemma CutNext(buffer: seq<char>, buffer': seq<char>, text: string, runs: seq<Span>, tokens: seq<nat>)
    requires Ordered(runs) && AllCut(buffer, text, runs, tokens) && |tokens| < |runs|
    requires var run := runs[|tokens|];
             CutAt(buffer', text, run) && run.end < |buffer| && buffer' == buffer[run.end := '\0']
    ensures AllCut(buffer', text, runs, tokens + [runs[|tokens|].start])
  {
    forall i | 0 <= i < |tokens|
      ensures CutAt(buffer', text, runs[i])
    {
      assert CutAt(buffer, text, runs[i]);
    }
  }

  lemma CutHere(buffer: seq<char>, text: string, delims: string, start: nat, end: nat)
    requires start < end <= |text| && HoldsFrom(buffer, text, start) && (end < |text| ==> text[end] in delims)
    ensures var buffer' := buffer[end := '\0'];
            && CutAt(buffer', text, Span(start, end))
            && HoldsFrom(buffer', text, if end < |text| then end + 1 else end)
    ensures Runs(text, delims, if end < |text| then end + 1 else end) == Runs(text, delims, end)
  {
  }

  /** The state kept across calls: the buffer being cut and the place reached. */
  class Strtok {
    var buffer: array<char>
    var s: nat

    /** A call with a string starts over from its beginning. */
    constructor (str: array<char>)
      ensures buffer == str && s == 0
    {
      buffer, s := str, 0;
    }

    method SkipToStart(delims: string, ghost text: string)
      requires HoldsFrom(buffer[..], text, s) && '\0' !in text
      modifies `s
      ensures s == SkipDelimiters(text, delims, old(s))
    {
      while buffer[s] != '\0'
        invariant HoldsFrom(buffer[..], text, s)
        invariant SkipDelimiters(text, delims, s) == SkipDelimiters(text, delims, old(s))
        decreases |text| - s
      {
        var isDelim := false;
        for i := 0 to |delims|
          invariant !isDelim && buffer[s] !in delims[..i]
        {
          if buffer[s] == delims[i] {
            isDelim := true;
            break;
          }
        }
        if !isDelim {
          break;
        }
        s := s + 1;
      }
      assert s < |text| ==> text[s] in text;
    }

    /** Runs to the end of the token and cuts it off there. */
    method CutToEnd(delims: string, ghost text: string)
      requires HoldsFrom(buffer[..], text, s) && '\0' !in text
      modifies `s, buffer
      ensures var end := SkipToken(text, delims, old(s));
              && s == (if end < |text| then end + 1 else end)
              && buffer[..] == old(buffer[..])[end := '\0']
    {
      while buffer[s] != '\0'
        invariant HoldsFrom(buffer[..], text, s) && buffer[..] == old(buffer[..])
        invariant SkipToken(text, delims, s) == SkipToken(text, delims, old(s))
        decreases |text| - s
      {
        for i := 0 to |delims|
          invariant buffer[s] !in delims[..i] && buffer[..] == old(buffer[..])
        {
          if buffer[s] == delims[i] {
            buffer[s] := '\0';
            s := s + 1;
            return;
          }
        }
        s := s + 1;
      }
    }

    /** The next token, or null when none remains. It can be read from the buffer as a string. */
    method Next(delims: string, ghost text: string) returns (token: Option<nat>)
      requires HoldsFrom(buffer[..], text, s) && '\0' !in text
      modifies `s, buffer
      ensures HoldsFrom(buffer[..], text, s)
      ensures old(Runs(text, delims, s)) == [] ==>
                token == None && buffer[..] == old(buffer[..]) && Runs(text, delims, s) == []
      ensures old(Runs(text, delims, s)) != [] ==>
                var run := old(Runs(text, delims, s))[0];
                && token == Some(run.start) && CutAt(buffer[..], text, run)
                && buffer[..] == old(buffer[..])[run.end := '\0']
                && Runs(text, delims, s) == old(Runs(text, delims, s))[1..]
    {
      ghost var before := buffer[..];
      SkipToStart(delims, text);
      assert s < |text| ==> text[s] in text;
      if buffer[s] == '\0' {
        return None;
      }
      var start := s;
      CutToEnd(delims, text);
      ghost var end := SkipToken(text, delims, start);
      CutHere(before, text, delims, start, end);
      return Some(start);
    }
  }

  /**
   Iterating over a terminated text gives every run, and at the end every token can
   still be read from the buffer: later cuts leave earlier tokens alone.
   */
  method TokenizeInPlace(buffer: array<char>, delims: string, ghost text: string) returns (tokens: seq<nat>)
    requires HoldsFrom(buffer[..], text, 0) && '\0' !in text
    modifies buffer
    ensures |tokens| == |Runs(text, delims, 0)|
    ensures forall i :: 0 <= i < |tokens| ==> IsToken(CString(buffer[..], tokens[i]), text, Runs(text, delims, 0)[i])
  {
    var t := new Strtok(buffer);
    tokens := [];
    ghost var runs := Runs(text, delims, 0);
    RunsAreRuns(text, delims, 0);
    while true
      invariant t.buffer == buffer && HoldsFrom(buffer[..], text, t.s)
      invariant AllCut(buffer[..], text, runs, tokens) && Runs(text, delims, t.s) == runs[|tokens|..]
      decreases |runs| - |tokens|
    {
      ghost var before := buffer[..];
      var token := t.Next(delims, text);
      if token.None? {
        break;
      }
      CutNext(before, buffer[..], text, runs, tokens);
      tokens := tokens + [token.value];
    }
    forall i | 0 <= i < |tokens|
      ensures IsToken(CString(buffer[..], tokens[i]), text, runs[i])
    {
      CutToken(buffer[..], text, runs[i]);
    }
  }

  /** Both tokenizers give the same tokens. */
  method TokenizersAgree(text: string, delims: string) returns (indexed: seq<string>, cut: seq<string>)
    requires '\0' !in text
    ensures indexed == cut && |cut| == |Runs(text, delims, 0)| && Texts(cut, text, Runs(text, delims, 0))
  {
    indexed := Tokenize(text, delims);
    var buffer := new char[|text| + 1](_ => '\0');
    forall i | 0 <= i < |text| {
      buffer[i] := text[i];
    }
    var tokens := TokenizeInPlace(buffer, delims, text);
    var b := buffer[..];
    cut := seq(|tokens|, (i: nat) requires i < |tokens| => CString(b, tokens[i]));
    forall i | 0 <= i < |cut|
      ensures indexed[i] == cut[i]
    {
      assert IsToken(cut[i], text, Runs(text, delims, 0)[i]);
      assert IsToken(indexed[i], text, Runs(text, delims, 0)[i]);
    }
  }
}
