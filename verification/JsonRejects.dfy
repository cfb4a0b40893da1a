/** What jsmn_parse rejects. */
module JsonRejects {
  import opened Prelude
  import opened Jsmn
  import opened JsonText
  import opened JsonParse

  // ---------------------------------------------------------------- strings

  /** A backslash with none of the escapes behind it: another character, or something that is no hexadecimal digit among
      the four behind a u. */
  ghost predicate BadEscape(js: string, q: nat) {
    && q + 1 < |js| && js[q] == '\\' && !EscapeLetter(js[q + 1])
    && (js[q + 1] == 'u' ==> BadDigits(js, q + 2))
  }

  ghost predicate BadDigits(js: string, p: nat) { exists x: nat :: BadDigit(js, p, 4, x) }

  /** The character at `x` is the first of the `n` at `p` that is no digit. */
  ghost predicate BadDigit(js: string, p: nat, n: nat, x: nat) {
    && p <= x < p + n && x < |js| && js[x] != '\0' && !HexDigit(js[x])
    && forall i :: p <= i < x ==> HexDigit(js[i])
  }

  lemma {:induction false} HexScanned(js: string, p: nat, n: nat)
    ensures match ScanHex(js, p, n)
            case None => exists x: nat :: BadDigit(js, p, n, x)
            case Some(q) =>
              && p <= q <= p + n && q <= p + |js| && (forall i :: p <= i < q ==> i < |js| && HexDigit(js[i]))
              && (q < p + n ==> Ends(js, q))
    decreases n
  {
    hide Hex, HexDigit;
    if n > 0 && !Ends(js, p) {
      Digits(js[p]);
      if Hex(js[p]) {
        HexScanned(js, p + 1, n - 1);
        if ScanHex(js, p + 1, n - 1) == None {
          var x: nat :| BadDigit(js, p + 1, n - 1, x);
          assert BadDigit(js, p, n, x);
        }
      } else {
        assert BadDigit(js, p, n, p);
      }
    }
  }

  lemma {:induction false} BadDigitFails(js: string, p: nat, n: nat, x: nat)
    requires BadDigit(js, p, n, x)
    ensures ScanHex(js, p, n) == None
    decreases n
  {
    hide Hex, HexDigit;
    Digits(js[p]);
    if p < x {
      NoNul();
      BadDigitFails(js, p + 1, n - 1, x);
    }
  }

  lemma NoNul()
    ensures !HexDigit('\0')
  {
  }

  /** How the scan of a string ends, read off the text: at the first quote that is not escaped, or at the first bad
      escape. */
  ghost predicate StringEnd(js: string, pos: nat, q: nat) {
    pos <= q < |js| && js[q] == '\"' && StringText(js[pos..q])
  }

  ghost predicate StringFault(js: string, pos: nat, q: nat) {
    pos <= q < |js| && StringText(js[pos..q]) && BadEscape(js, q)
  }

  lemma StringText0()
    ensures StringText("")
  {
  }

  /** Contents found behind one more character, or behind an escape. */
  lemma MoreText(js: string, pos: nat, n: nat, q: nat)
    requires pos + n <= q <= |js| && StringText(js[pos + n..q])
    requires || (n == 1 && js[pos] != '\"' && js[pos] != '\\' && js[pos] != '\0')
             || (n == 2 && js[pos] == '\\' && EscapeLetter(js[pos + 1]))
             || (n == 6 && js[pos] == '\\' && js[pos + 1] == 'u'
                 && forall i :: pos + 2 <= i < pos + 6 ==> HexDigit(js[i]))
    ensures StringText(js[pos..q])
  {
    hide EscapeLetter, HexDigit;
    assert js[pos..q][n..] == js[pos + n..q];
  }

  lemma {:induction false} StringScanned(js: string, pos: nat)
    requires pos <= |js|
    ensures match ScanString(js, pos)
            case End(q) => StringEnd(js, pos, q)
            case Failed(code) => code == -2 ==> exists q: nat :: StringFault(js, pos, q)
    decreases |js| - pos
  {
    hide Escape, Hex, EscapeLetter, HexDigit, StringText;
    if !Ends(js, pos) {
      assert js[pos..pos] == "";
      StringText0();
      if js[pos] == '\"' {
      } else if js[pos] == '\\' && pos + 1 < |js| {
        Letters(js[pos + 1]);
        Letters('u');
        if Escape(js[pos + 1]) {
          StringScanned(js, pos + 2);
          MoreScanned(js, pos, 2, pos + 2);
        } else if js[pos + 1] == 'u' {
          HexScanned(js, pos + 2, 4);
          match ScanHex(js, pos + 2, 4)
          case None =>
            FaultAt(js, pos);
          case Some(q) =>
            StringScanned(js, q);
            if q == pos + 6 {
              MoreScanned(js, pos, 6, pos + 6);
            } else {
              assert ScanString(js, q) == Failed(-3);
            }
        } else {
          FaultAt(js, pos);
        }
      } else if js[pos] != '\\' {
        StringScanned(js, pos + 1);
        MoreScanned(js, pos, 1, pos + 1);
      }
    }
  }

  lemma FaultAt(js: string, pos: nat)
    requires BadEscape(js, pos)
    ensures StringFault(js, pos, pos)
  {
    assert js[pos..pos] == "";
  }

  /** What holds behind the first `n` characters holds from them on. */
  lemma MoreScanned(js: string, pos: nat, n: nat, next: nat)
    requires next == pos + n <= |js|
    requires || (n == 1 && js[pos] != '\"' && js[pos] != '\\' && js[pos] != '\0')
             || (n == 2 && js[pos] == '\\' && EscapeLetter(js[pos + 1]))
             || (n == 6 && js[pos] == '\\' && js[pos + 1] == 'u'
                 && forall i :: pos + 2 <= i < pos + 6 ==> HexDigit(js[i]))
    ensures forall q: nat :: StringEnd(js, next, q) ==> StringEnd(js, pos, q)
    ensures (exists q: nat :: StringFault(js, next, q)) ==> exists q: nat :: StringFault(js, pos, q)
  {
    hide EscapeLetter, HexDigit, StringText, BadEscape;
    forall q: nat | next <= q < |js| && StringText(js[next..q]) ensures StringText(js[pos..q]) {
      MoreText(js, pos, n, q);
    }
    if q: nat :| StringFault(js, next, q) {
      assert StringFault(js, pos, q);
    }
  }

  lemma FaultFails(js: string, q: nat)
    requires BadEscape(js, q)
    ensures ScanString(js, q) == Failed(-2)
  {
    hide Escape, EscapeLetter, HexDigit, Hex, ScanHex;
    Letters(js[q + 1]);
    Letters('u');
    if js[q + 1] == 'u' {
      var x: nat :| BadDigit(js, q + 2, 4, x);
      BadDigitFails(js, q + 2, 4, x);
    }
  }

  /** A string ends exactly at the quote behind contents that JSON allows, and is rejected with JSMN_ERROR_INVAL exactly
      for a bad escape behind such contents. */
  lemma StringExactly(js: string, pos: nat)
    requires pos <= |js|
    ensures forall q: nat :: ScanString(js, pos) == End(q) <==> StringEnd(js, pos, q)
    ensures ScanString(js, pos) == Failed(-2) <==> exists q: nat :: StringFault(js, pos, q)
  {
    hide ScanString, StringText, BadEscape;
    StringScanned(js, pos);
    forall q: nat | StringEnd(js, pos, q) ensures ScanString(js, pos) == End(q) {
      assert Here(js, pos, js[pos..q]);
      ScanThrough(js, pos, js[pos..q]);
      AtQuote(js, q);
    }
    if q: nat :| StringFault(js, pos, q) {
      assert Here(js, pos, js[pos..q]);
      ScanThrough(js, pos, js[pos..q]);
      FaultFails(js, q);
    }
  }

  lemma AtQuote(js: string, q: nat)
    requires q < |js| && js[q] == '\"'
    ensures ScanString(js, q) == End(q)
  {
  }

  // ---------------------------------------------------------------- primitives

  ghost predicate PrimitiveEnd(js: string, pos: nat, q: nat) {
    && pos <= q <= |js| && (forall i :: pos <= i < q ==> Unquoted(js[i]))
    && (q == |js| || js[q] in {'\0', ',', ':', ']', '}', ' ', '\t', '\r', '\n'})
  }

  lemma PrimitiveFirst(js: string, pos: nat)
    requires pos < |js|
    ensures forall q: nat :: PrimitiveEnd(js, pos, q) ==>
              if q == pos then js[pos] in {'\0', ',', ':', ']', '}', ' ', '\t', '\r', '\n'}
              else Unquoted(js[pos]) && PrimitiveEnd(js, pos + 1, q)
    ensures forall q: nat :: PrimitiveEnd(js, pos + 1, q) && Unquoted(js[pos]) ==> PrimitiveEnd(js, pos, q)
  {
    hide Unquoted;
  }

  /** A primitive ends exactly behind visible characters, at a delimiter or the end; anything else in it is rejected
      with JSMN_ERROR_INVAL. */
  lemma {:induction false} PrimitiveExactly(js: string, pos: nat)
    requires pos <= |js|
    ensures forall q: nat :: ScanPrimitive(js, pos) == End(q) <==> PrimitiveEnd(js, pos, q)
    ensures ScanPrimitive(js, pos) == Failed(-2) <==> !exists q: nat :: PrimitiveEnd(js, pos, q)
    decreases |js| - pos
  {
    hide Delimiter, Unquoted;
    if pos < |js| {
      Letters(js[pos]);
      NulIs();
      PrimitiveFirst(js, pos);
      if Ends(js, pos) || Delimiter(js[pos]) {
        assert PrimitiveEnd(js, pos, pos);
      } else if Unquoted(js[pos]) {
        PrimitiveExactly(js, pos + 1);
      }
    } else {
      assert PrimitiveEnd(js, pos, pos);
    }
  }

  lemma NulIs()
    ensures !Unquoted('\0') && !Delimiter('\0')
  {
  }

  // ---------------------------------------------------------------- whole texts

  lemma Stops(js: string, num: nat, s: State, code: int)
    requires Wf(s) && !Ends(js, s.pos) && Step(js, num, s) == Stop(code)
    ensures Run(js, num, s) == (s, code)
  {
    hide Step;
  }

  /** A closing bracket without an open one, or behind one of the other kind, is JSMN_ERROR_INVAL. */
  lemma WrongClose(js: string, num: nat, s: State)
    requires Wf(s) && s.pos < |js| && (js[s.pos] == ']' || js[s.pos] == '}')
    requires var i := LastOpen(s.toks); i == -1 || (s.toks[i].kind == Object) != (js[s.pos] == '}')
    requires var i := LastOpen(s.toks); i >= 0 ==> Container(s.toks[i].kind)
    ensures Run(js, num, s).1 == -2
  {
    hide Run, LastOpen;
    Stops(js, num, s, -2);
  }

  /** A string with a bad escape is rejected wherever it stands. */
  lemma WrongString(js: string, num: nat, s: State, q: nat)
    requires Wf(s) && s.pos < |js| && js[s.pos] == '\"' && StringFault(js, s.pos + 1, q)
    ensures Run(js, num, s).1 == -2
  {
    hide Run, ScanString, StringFault;
    StringExactly(js, s.pos + 1);
    Stops(js, num, s, -2);
  }

  /** A bracket too many behind a value. */
  lemma ExtraBracket(v: Json, before: string, after: string, bracket: char, rest: string, num: nat)
    requires WellFormed(v) && White(before) && White(after) && Size(v) <= num && (bracket == ']' || bracket == '}')
    ensures Run(before + (Print(v) + (after + ([bracket] + rest))), num, START).1 == -2
  {
    hide Run, Print, Tokens, WellFormed, White, Size, Here;
    var more := after + ([bracket] + rest);
    var js := before + (Print(v) + more);
    var t := TopValue(js, num, v, before, after, bracket, rest);
    HereAt(js, t.pos, [bracket] + rest, 0);
    WrongClose(js, num, t);
  }

  /** The parser behind a whole value and the white space that follows it. */
  lemma TopValue(js: string, num: nat, v: Json, before: string, after: string, bracket: char, rest: string)
    returns (t: State)
    requires WellFormed(v) && White(before) && White(after) && Size(v) <= num && (bracket == ']' || bracket == '}')
    requires js == before + (Print(v) + (after + ([bracket] + rest)))
    ensures Wf(t) && Run(js, num, START) == Run(js, num, t) && LastOpen(t.toks) == -1
    ensures Here(js, t.pos, [bracket] + rest)
  {
    hide Run, Print, Tokens, WellFormed, White, AfterValue, Size, Here;
    var more := after + ([bracket] + rest);
    WholeHere(js);
    HereSplit(js, 0, before, Print(v) + more);
    SkipWhite(js, num, START, before);
    HereSplit(js, |before|, Print(v), more);
    var p := |before| + |Print(v)|;
    BracketFollows(js, p, after, bracket, rest);
    var s := START.(pos := |before|);
    ParseValue(js, num, s, v);
    LastOfValue(s, v);
    HereSplit(js, p, after, [bracket] + rest);
    SkipWhite(js, num, AfterValue(s, v), after);
    t := AfterValue(s, v).(pos := p + |after|);
  }

  lemma WholeHere(js: string)
    ensures Here(js, 0, js)
  {
  }

  lemma BracketFollows(js: string, p: nat, after: string, bracket: char, rest: string)
    requires Here(js, p, after + ([bracket] + rest)) && White(after) && (bracket == ']' || bracket == '}')
    ensures Followed(js, p)
  {
    HereAt(js, p, after + ([bracket] + rest), 0);
  }

  /** A value behind an opening bracket: the parser is inside the container then. */
  lemma OneInside(js: string, num: nat, kind: Kind, before: string, space: string, v: Json, after: string, rest: string)
    returns (next: State)
    requires WellFormed(v) && White(before) && White(space) && White(after) && 1 + Size(v) <= num && Container(kind)
    requires js == before + ((if kind == Object then "{" else "[") + (space + (Print(v) + (after + rest))))
    requires rest == "" || rest[0] == ']' || rest[0] == '}'
    ensures Wf(next) && Run(js, num, START) == Run(js, num, next) && LastOpen(next.toks) == 0
    ensures |next.toks| > 0 && next.toks[0].kind == kind
    ensures next.pos + |rest| == |js| && Here(js, next.pos, rest)
  {
    hide Run, Print, Tokens, WellFormed, White, AfterValue, Size, Here, Inside, Opened;
    var open := if kind == Object then "{" else "[";
    WholeHere(js);
    HereSplit(js, 0, before, open + (space + (Print(v) + (after + rest))));
    SkipWhite(js, num, START, before);
    HereSplit(js, |before|, open, space + (Print(v) + (after + rest)));
    HereAt(js, |before|, open, 0);
    var s := START.(pos := |before|);
    OpenStep(js, num, s, kind);
    OpenedShape(s, kind);
    HereSplit(js, |before| + 1, space, Print(v) + (after + rest));
    SkipWhite(js, num, Opened(s, kind), space);
    var u := Opened(s, kind).(pos := |before| + 1 + |space|);
    InsideMoved(Opened(s, kind), 0, kind, u.pos);
    next := ThenValue(js, num, u, kind, v, after, rest);
  }

  lemma ThenValue(js: string, num: nat, u: State, kind: Kind, v: Json, after: string, rest: string)
    returns (next: State)
    requires Inside(u, 0, kind) && |u.toks| == 1 && u.super == 0 && WellFormed(v) && White(after) && 1 + Size(v) <= num
    requires Here(js, u.pos, Print(v) + (after + rest)) && u.pos + |Print(v)| + |after| + |rest| == |js|
    requires rest == "" || rest[0] == ']' || rest[0] == '}'
    ensures Wf(next) && Run(js, num, u) == Run(js, num, next) && LastOpen(next.toks) == 0
    ensures |next.toks| > 0 && next.toks[0].kind == kind
    ensures next.pos + |rest| == |js| && Here(js, next.pos, rest)
  {
    hide Run, Print, Tokens, WellFormed, White, AfterValue, Size, Here, Inside;
    InsideShape(u, kind);
    HereSplit(js, u.pos, Print(v), after + rest);
    RestFollows(js, u.pos + |Print(v)|, after, rest);
    ParseValue(js, num, u, v);
    ValueInside(u, 0, kind, v);
    var w := AfterValue(u, v);
    HereSplit(js, w.pos, after, rest);
    SkipWhite(js, num, w, after);
    next := w.(pos := w.pos + |after|);
    InsideShape(w, kind);
  }

  lemma OpenedShape(s: State, kind: Kind)
    requires s == START.(pos := s.pos)
    ensures var t := Opened(s, kind); t.pos == s.pos + 1 && |t.toks| == 1 && t.super == 0
  {
  }

  lemma InsideShape(s: State, kind: Kind)
    requires Inside(s, 0, kind)
    ensures Wf(s) && LastOpen(s.toks) == 0 && |s.toks| > 0 && s.toks[0].kind == kind
  {
  }

  lemma RestFollows(js: string, p: nat, after: string, rest: string)
    requires Here(js, p, after + rest) && White(after) && p + |after| + |rest| == |js|
    requires rest == "" || rest[0] == ']' || rest[0] == '}'
    ensures Followed(js, p)
  {
    if after + rest != "" {
      HereAt(js, p, after + rest, 0);
    }
  }

  /** A container closed by a bracket of the other kind. */
  lemma WrongBracket(kind: Kind, before: string, space: string, v: Json, after: string, rest: string, num: nat)
    requires WellFormed(v) && White(before) && White(space) && White(after) && 1 + Size(v) <= num && Container(kind)
    ensures var js := before + ((if kind == Object then "{" else "[") + (space + (Print(v) + (after
                        + ([if kind == Object then ']' else '}'] + rest)))));
            Run(js, num, START).1 == -2
  {
    hide Run, Print, Tokens, WellFormed, White, Size, Here;
    var close := [if kind == Object then ']' else '}'] + rest;
    var js := before + ((if kind == Object then "{" else "[") + (space + (Print(v) + (after + close))));
    var next := OneInside(js, num, kind, before, space, v, after, close);
    HereAt(js, next.pos, close, 0);
    WrongClose(js, num, next);
  }

  /** A container that is not closed is JSMN_ERROR_PART. */
  lemma Unclosed(kind: Kind, before: string, space: string, v: Json, after: string, num: nat)
    requires WellFormed(v) && White(before) && White(space) && White(after) && 1 + Size(v) <= num && Container(kind)
    ensures var js := before + ((if kind == Object then "{" else "[") + (space + (Print(v) + after)));
            Run(js, num, START).1 == -3
  {
    hide Print, Tokens, WellFormed, White, Size, Here;
    var js := before + ((if kind == Object then "{" else "[") + (space + (Print(v) + after)));
    assert after + "" == after;
    var next := OneInside(js, num, kind, before, space, v, after, "");
  }
}
