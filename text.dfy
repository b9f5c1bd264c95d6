/**
 * Character-level rules used by the inquiry form: JavaScript whitespace,
 * `String.prototype.trim`, and the two regular expressions the validator
 * tests trimmed values against. Neither pattern has the `u` flag, so both
 * match UTF-16 code units. The e-mail pattern is run on the units. The
 * trim and the month pattern are stated on code points: every character
 * they look for lies in the Basic Multilingual Plane and no surrogate is
 * one of them, so they give the same answers.
 */
module Text {

  /** The code points JavaScript counts as WhiteSpace or LineTerminator
      from U+00A0 on; below it they are TAB..CR and SPACE. Both the `\s`
      class and `trim()` use exactly these. All lie in the Basic
      Multilingual Plane, so the same numbers are also the whitespace
      UTF-16 code units, and no surrogate is whitespace. */
  const WideWhitespace: set<int> := {
    0x00A0, 0x1680,
    0x2000, 0x2001, 0x2002, 0x2003, 0x2004, 0x2005,
    0x2006, 0x2007, 0x2008, 0x2009, 0x200A,
    0x2028, 0x2029, 0x202F, 0x205F, 0x3000, 0xFEFF
  }

  /** No whitespace is a surrogate or lies outside the Basic Multilingual
      Plane. */
  predicate IsWhitespaceCode(n: int): (b: bool)
    ensures b ==> 0x09 <= n < 0xD800 || 0xE000 <= n < 0x1_0000
  {
    if n < 0xA0 then 0x09 <= n <= 0x0D || n == 0x20 else n in WideWhitespace
  }

  predicate IsWhitespace(c: char) {
    IsWhitespaceCode(c as int)
  }

  predicate AllWhitespace(s: string) {
    forall i | 0 <= i < |s| :: IsWhitespace(s[i])
  }

  // ---------------------------------------------------------------------------
  // trim()

  /** `String.prototype.trim`: whitespace is dropped from both ends. */
  function Trim(s: string): (r: string)
    ensures |r| <= |s|
    decreases |s|
  {
    if s != [] && IsWhitespace(s[0]) then Trim(s[1..])
    else if s != [] && IsWhitespace(s[|s| - 1]) then Trim(s[..|s| - 1])
    else s
  }

  /** What is left neither starts nor ends with whitespace. */
  lemma {:induction false} TrimEnds(s: string)
    ensures Trim(s) != [] ==> !IsWhitespace(Trim(s)[0]) && !IsWhitespace(Trim(s)[|Trim(s)| - 1])
    decreases |s|
  {
    if s != [] && IsWhitespace(s[0]) {
      TrimEnds(s[1..]);
    } else if s != [] && IsWhitespace(s[|s| - 1]) {
      TrimEnds(s[..|s| - 1]);
    }
  }

  /** The trimmed value is empty exactly when `s` is all whitespace. */
  lemma {:induction false} TrimEmpty(s: string)
    ensures Trim(s) == [] <==> AllWhitespace(s)
    decreases |s|
  {
    if s != [] && IsWhitespace(s[0]) {
      TrimEmpty(s[1..]);
      assert AllWhitespace(s) <==> AllWhitespace(s[1..]) by {
        if AllWhitespace(s[1..]) {
          forall i | 0 <= i < |s| ensures IsWhitespace(s[i]) {
            if i > 0 { assert s[i] == s[1..][i - 1]; }
          }
        }
      }
    } else if s != [] && IsWhitespace(s[|s| - 1]) {
      TrimEmpty(s[..|s| - 1]);
      assert s[..|s| - 1][0] == s[0];
    } else if s != [] {
      assert !IsWhitespace(s[0]);
    }
  }

  /** The trimmed value sits in `s` at `lead`, with only whitespace around it. */
  ghost predicate InfixAt(s: string, r: string, lead: nat) {
    && lead + |r| <= |s|
    && r == s[lead..lead + |r|]
    && AllWhitespace(s[..lead])
    && AllWhitespace(s[lead + |r|..])
  }

  /** Only whitespace is dropped, and only from the ends: the trimmed value
      is an infix of `s` with whitespace before and after it. */
  lemma {:induction false} TrimInfix(s: string) returns (lead: nat)
    ensures InfixAt(s, Trim(s), lead)
    decreases |s|
  {
    if s != [] && IsWhitespace(s[0]) {
      var inner := TrimInfix(s[1..]);
      InfixAfterSpace(s, Trim(s), inner);
      lead := inner + 1;
    } else if s != [] && IsWhitespace(s[|s| - 1]) {
      lead := TrimInfix(s[..|s| - 1]);
      InfixBeforeSpace(s, Trim(s), lead);
    } else {
      lead := 0;
      assert s[..0] == [] && s[|s|..] == [] && s[0..|s|] == s;
    }
  }

  lemma InfixAfterSpace(s: string, r: string, inner: nat)
    requires s != [] && IsWhitespace(s[0]) && InfixAt(s[1..], r, inner)
    ensures InfixAt(s, r, inner + 1)
  {
    var lead := inner + 1;
    assert s[lead..lead + |r|] == s[1..][inner..inner + |r|];
    assert s[lead + |r|..] == s[1..][inner + |r|..];
    assert s[..lead] == [s[0]] + s[1..][..inner];
  }

  lemma InfixBeforeSpace(s: string, r: string, lead: nat)
    requires s != [] && IsWhitespace(s[|s| - 1]) && InfixAt(s[..|s| - 1], r, lead)
    ensures InfixAt(s, r, lead)
  {
    var t := s[..|s| - 1];
    assert s[lead..lead + |r|] == t[lead..lead + |r|];
    assert s[..lead] == t[..lead];
    assert s[lead + |r|..] == t[lead + |r|..] + [s[|s| - 1]];
  }

  /** A value without whitespace at either end is left as it is. */
  lemma TrimKeeps(s: string)
    requires s != [] && !IsWhitespace(s[0]) && !IsWhitespace(s[|s| - 1])
    ensures Trim(s) == s
  {
  }

  lemma TrimIdempotent(s: string)
    ensures Trim(Trim(s)) == Trim(s)
  {
    TrimEnds(s);
    if Trim(s) != [] {
      TrimKeeps(Trim(s));
    }
  }

  // ---------------------------------------------------------------------------
  // UTF-16

  /** JavaScript strings are sequences of UTF-16 code units, and a regular
      expression without the `u` flag matches unit by unit. */
  type CodeUnit = u: int | 0 <= u < 0x1_0000

  const AtSign: CodeUnit := 0x40
  const FullStop: CodeUnit := 0x2E

  /** The code units of one code point: itself below U+10000, a surrogate
      pair above. Decoding the units gives the code point back. */
  function Encode(c: char): (u: seq<CodeUnit>)
    ensures c as int < 0x1_0000 ==> u == [c as int]
    ensures c as int >= 0x1_0000 ==>
      && |u| == 2
      && 0xD800 <= u[0] < 0xDC00 && 0xDC00 <= u[1] < 0xE000
      && c as int == 0x1_0000 + (u[0] as int - 0xD800) * 0x400 + (u[1] as int - 0xDC00)
  {
    var n := c as int;
    if n < 0x1_0000 then [n]
    else
      var m := n - 0x1_0000;
      [0xD800 + m / 0x400, 0xDC00 + m % 0x400]
  }

  /** The UTF-16 form of a string, as JavaScript holds it. */
  function Utf16(s: string): (u: seq<CodeUnit>)
    ensures |u| >= |s|
    decreases |s|
  {
    if s == [] then [] else Encode(s[0]) + Utf16(s[1..])
  }

  /** A string of Basic Multilingual Plane characters has one unit per
      character, equal to its code point. */
  lemma {:induction false} Utf16Bmp(s: string)
    requires forall i | 0 <= i < |s| :: s[i] as int < 0x1_0000
    ensures |Utf16(s)| == |s|
    ensures forall i | 0 <= i < |s| :: Utf16(s)[i] == s[i] as int
    decreases |s|
  {
    if s != [] {
      Utf16Bmp(s[1..]);
      assert Utf16(s) == [s[0] as int] + Utf16(s[1..]);
    }
  }

  /** The units of a concatenation are those of its parts, in order. */
  lemma {:induction false} Utf16Append(a: string, b: string)
    ensures Utf16(a + b) == Utf16(a) + Utf16(b)
    decreases |a|
  {
    if a == [] {
      assert a + b == b;
    } else {
      assert (a + b)[0] == a[0] && (a + b)[1..] == a[1..] + b;
      Utf16Append(a[1..], b);
    }
  }

  // ---------------------------------------------------------------------------
  // /^[^\s@]+@[^\s@]+\.[^\s@]{2,}$/i

  /** The class `[^\s@]`. */
  predicate EmailFree(c: CodeUnit) {
    !IsWhitespaceCode(c) && c != AtSign
  }

  predicate AllFree(s: seq<CodeUnit>) {
    forall i | 0 <= i < |s| :: EmailFree(s[i])
  }

  /** States of a deterministic automaton recognising the e-mail pattern.
      After the `@`, the automaton commits to the first `.` that has at
      least one domain character before it: that dot leaves the most room
      for the two-character suffix, so no backtracking is ever needed. */
  datatype EmailState =
    | Start      // nothing read
    | Local      // one or more local-part characters
    | AfterAt    // the `@`
    | Domain     // one or more domain characters, no usable dot yet
    | AfterDot   // a dot with a domain character before it
    | Suffix1    // one character after that dot
    | Suffix2    // two or more characters after that dot: accepting
    | Dead

  /** The only way past the local part is an `@` read right after it; a
      whitespace unit is fatal in every state. */
  function Step(q: EmailState, c: CodeUnit): (r: EmailState)
    ensures r == AfterAt <==> q == Local && c == AtSign
    ensures IsWhitespaceCode(c) ==> r == Dead
  {
    if IsWhitespaceCode(c) then Dead
    else match q
      case Start => if c == AtSign then Dead else Local
      case Local => if c == AtSign then AfterAt else Local
      case AfterAt => if c == AtSign then Dead else Domain
      case Domain => if c == AtSign then Dead else if c == FullStop then AfterDot else Domain
      case AfterDot => if c == AtSign then Dead else Suffix1
      case Suffix1 => if c == AtSign then Dead else Suffix2
      case Suffix2 => if c == AtSign then Dead else Suffix2
      case Dead => Dead
  }

  /** Once dead, the automaton stays dead: the pattern is anchored at both
      ends, so nothing after a bad unit can rescue the match. */
  function Run(q: EmailState, s: seq<CodeUnit>): (r: EmailState)
    ensures q == Dead ==> r == Dead
    decreases |s|
  {
    if s == [] then q else Run(Step(q, s[0]), s[1..])
  }

  /** What `test` of the e-mail regular expression answers for `s`. */
  predicate EmailMatches(s: seq<CodeUnit>) {
    Run(Start, s) == Suffix2
  }

  /** The address shape in words: no whitespace anywhere, exactly one `@`
      with something before it, and after it a domain holding a `.` with at
      least one character before that dot and at least two after it. */
  ghost predicate EmailShape(s: seq<CodeUnit>) {
    && (forall i | 0 <= i < |s| :: !IsWhitespaceCode(s[i]))
    && exists at | 0 < at < |s| ::
      && s[at] == AtSign
      && (forall i | 0 <= i < |s| && i != at :: s[i] != AtSign)
      && (exists dot | at + 1 < dot && dot + 2 < |s| :: s[dot] == FullStop)
  }

  /** `s` has no whitespace or `@`, and a dot at index `from` or later with
      at least two characters after it. */
  ghost predicate DottedTail(s: seq<CodeUnit>, from: nat) {
    AllFree(s) && exists d | from <= d && d + 3 <= |s| :: s[d] == FullStop
  }

  /** `s` is a non-empty run of `[^\s@]` of length at least `min`, an `@`,
      and then a dotted domain. */
  ghost predicate AddressTail(s: seq<CodeUnit>, min: nat) {
    exists at | min <= at < |s| :: s[at] == AtSign && AllFree(s[..at]) && DottedTail(s[at + 1..], 1)
  }

  /** The strings the automaton accepts when started in state `q`. */
  ghost predicate Accepts(q: EmailState, s: seq<CodeUnit>) {
    match q
    case Start => AddressTail(s, 1)
    case Local => AddressTail(s, 0)
    case AfterAt => DottedTail(s, 1)
    case Domain => DottedTail(s, 0)
    case AfterDot => AllFree(s) && |s| >= 2
    case Suffix1 => AllFree(s) && |s| >= 1
    case Suffix2 => AllFree(s)
    case Dead => false
  }

  lemma AllFreeCons(c: CodeUnit, t: seq<CodeUnit>)
    ensures AllFree([c] + t) <==> EmailFree(c) && AllFree(t)
  {
    var s := [c] + t;
    if EmailFree(c) && AllFree(t) {
      forall i | 0 <= i < |s| ensures EmailFree(s[i]) {
        if i > 0 { assert s[i] == t[i - 1]; }
      }
    }
    if AllFree(s) {
      assert s[0] == c;
      forall i | 0 <= i < |t| ensures EmailFree(t[i]) {
        assert t[i] == s[i + 1];
      }
    }
  }

  lemma DottedTailCons(c: CodeUnit, t: seq<CodeUnit>, from: nat)
    ensures DottedTail([c] + t, from + 1) <==> EmailFree(c) && DottedTail(t, from)
  {
    var s := [c] + t;
    AllFreeCons(c, t);
    if DottedTail(s, from + 1) {
      var d :| from + 1 <= d && d + 3 <= |s| && s[d] == FullStop;
      assert t[d - 1] == FullStop;
    }
    if EmailFree(c) && DottedTail(t, from) {
      var d :| from <= d && d + 3 <= |t| && t[d] == FullStop;
      assert s[d + 1] == FullStop;
    }
  }

  /** A leading `[^\s@]` character can be moved into the local part. */
  lemma AddressTailShift(c: CodeUnit, t: seq<CodeUnit>)
    requires EmailFree(c)
    ensures AddressTail([c] + t, 1) <==> AddressTail(t, 0)
    ensures AddressTail([c] + t, 0) <==> AddressTail(t, 0)
  {
    if AddressTail([c] + t, 0) {
      AddressTailDrop(c, t);
    }
    if AddressTail(t, 0) {
      AddressTailPrepend(c, t);
    }
  }

  lemma AddressTailDrop(c: CodeUnit, t: seq<CodeUnit>)
    requires EmailFree(c) && AddressTail([c] + t, 0)
    ensures AddressTail(t, 0)
  {
    var s := [c] + t;
    var at :| 0 <= at < |s| && s[at] == AtSign && AllFree(s[..at]) && DottedTail(s[at + 1..], 1);
    assert at > 0;
    assert s[..at] == [c] + t[..at - 1];
    AllFreeCons(c, t[..at - 1]);
    assert t[at - 1] == AtSign && t[at..] == s[at + 1..];
  }

  lemma AddressTailPrepend(c: CodeUnit, t: seq<CodeUnit>)
    requires EmailFree(c) && AddressTail(t, 0)
    ensures AddressTail([c] + t, 1)
  {
    var s := [c] + t;
    var at :| 0 <= at < |t| && t[at] == AtSign && AllFree(t[..at]) && DottedTail(t[at + 1..], 1);
    assert s[..at + 1] == [c] + t[..at];
    AllFreeCons(c, t[..at]);
    assert s[at + 1] == AtSign && s[at + 2..] == t[at + 1..];
  }

  /** Reading `c` in state `Domain`: the first dot after a domain character
      is the one to keep. */
  lemma DomainStep(c: CodeUnit, t: seq<CodeUnit>)
    ensures Accepts(Step(Domain, c), t) <==> DottedTail([c] + t, 0)
  {
    var s := [c] + t;
    AllFreeCons(c, t);
    DottedTailCons(c, t, 0);
    if c == FullStop {
      if AllFree(t) && |t| >= 2 {
        assert s[0] == FullStop;
      }
    } else if DottedTail(s, 0) {
      var d :| 0 <= d && d + 3 <= |s| && s[d] == FullStop;
      assert d > 0;
      assert DottedTail(s, 1);
    }
  }

  /** A leading character outside `[^\s@]` ends the local part at once:
      it cannot start a non-empty local part... */
  lemma AddressTailHead(c: CodeUnit, t: seq<CodeUnit>)
    requires !EmailFree(c)
    ensures !AddressTail([c] + t, 1)
  {
    var s := [c] + t;
    assert forall at | 1 <= at <= |s| :: s[..at][0] == c;
  }

  /** ...and it continues a non-empty one only when it is the `@`. */
  lemma AddressTailAt(c: CodeUnit, t: seq<CodeUnit>)
    requires !EmailFree(c)
    ensures AddressTail([c] + t, 0) <==> c == AtSign && DottedTail(t, 1)
  {
    var s := [c] + t;
    if AddressTail(s, 0) {
      var at :| 0 <= at < |s| && s[at] == AtSign && AllFree(s[..at]) && DottedTail(s[at + 1..], 1);
      assert at == 0 by {
        assert forall k | 1 <= k <= |s| :: s[..k][0] == c;
      }
      assert s[1..] == t;
    }
    if c == AtSign && DottedTail(t, 1) {
      assert s[..0] == [] && s[1..] == t;
    }
  }

  /** One step of the automaton agrees with the residual languages. */
  lemma {:induction false} StepAccepts(q: EmailState, c: CodeUnit, t: seq<CodeUnit>)
    ensures Accepts(Step(q, c), t) <==> Accepts(q, [c] + t)
  {
    AllFreeCons(c, t);
    match q {
      case Start =>
        if EmailFree(c) { AddressTailShift(c, t); } else { AddressTailHead(c, t); AddressTailAt(c, t); }
      case Local =>
        if EmailFree(c) { AddressTailShift(c, t); } else { AddressTailHead(c, t); AddressTailAt(c, t); }
      case AfterAt =>
        DottedTailCons(c, t, 0);
      case Domain =>
        DomainStep(c, t);
      case AfterDot =>
      case Suffix1 =>
      case Suffix2 =>
      case Dead =>
    }
  }

  lemma {:induction false} RunAccepts(q: EmailState, s: seq<CodeUnit>)
    ensures Run(q, s) == Suffix2 <==> Accepts(q, s)
    decreases |s|
  {
    if s != [] {
      assert s == [s[0]] + s[1..];
      RunAccepts(Step(q, s[0]), s[1..]);
      StepAccepts(q, s[0], s[1..]);
    }
  }

  /** The residual language of the start state is the readable shape. */
  lemma StartIsShape(s: seq<CodeUnit>)
    ensures Accepts(Start, s) <==> EmailShape(s)
  {
    if Accepts(Start, s) {
      StartGivesShape(s);
    }
    if EmailShape(s) {
      ShapeGivesStart(s);
    }
  }

  lemma StartGivesShape(s: seq<CodeUnit>)
    requires Accepts(Start, s)
    ensures EmailShape(s)
  {
    var at :| 1 <= at < |s| && s[at] == AtSign && AllFree(s[..at]) && DottedTail(s[at + 1..], 1);
    var tail := s[at + 1..];
    var d :| 1 <= d && d + 3 <= |tail| && tail[d] == FullStop;
    forall i | 0 <= i < |s| && i != at ensures EmailFree(s[i]) {
      if i < at { assert s[i] == s[..at][i]; } else { assert s[i] == tail[i - at - 1]; }
    }
    assert s[at + 1 + d] == FullStop;
  }

  lemma ShapeGivesStart(s: seq<CodeUnit>)
    requires EmailShape(s)
    ensures Accepts(Start, s)
  {
    var at :| 0 < at < |s| && s[at] == AtSign && (forall i | 0 <= i < |s| && i != at :: s[i] != AtSign)
      && (exists dot | at + 1 < dot && dot + 2 < |s| :: s[dot] == FullStop);
    var dot :| at + 1 < dot && dot + 2 < |s| && s[dot] == FullStop;
    var tail := s[at + 1..];
    assert tail[dot - at - 1] == FullStop;
    assert AllFree(s[..at]);
    assert AllFree(tail) by {
      forall i | 0 <= i < |tail| ensures EmailFree(tail[i]) {
        assert tail[i] == s[at + 1 + i];
      }
    }
  }

  /** The compiled e-mail pattern accepts exactly the readable shape. */
  lemma EmailMatchesShape(s: seq<CodeUnit>)
    ensures EmailMatches(s) <==> EmailShape(s)
  {
    RunAccepts(Start, s);
    StartIsShape(s);
  }

  lemma TrailingDotUnits()
    ensures Utf16("a@b.co.") == [0x61, 0x40, 0x62, 0x2E, 0x63, 0x6F, 0x2E]
  {
    Utf16Bmp("a@b.co.");
  }

  /** Any local part, `@`, domain, `.` and a suffix of two or more units,
      none of them holding whitespace or `@`, is accepted, whatever dots the
      domain and the suffix hold. */
  lemma AddressAccepted(local: seq<CodeUnit>, domain: seq<CodeUnit>, suffix: seq<CodeUnit>)
    requires |local| >= 1 && |domain| >= 1 && |suffix| >= 2
    requires AllFree(local) && AllFree(domain) && AllFree(suffix)
    ensures EmailMatches(local + [AtSign] + domain + [FullStop] + suffix)
  {
    var s := local + [AtSign] + domain + [FullStop] + suffix;
    var at, dot := |local|, |local| + 1 + |domain|;
    forall i | 0 <= i < |s| && i != at
      ensures EmailFree(s[i])
    {
      if i < at {
        assert s[i] == local[i];
      } else if i < dot {
        assert s[i] == domain[i - at - 1];
      } else if i > dot {
        assert s[i] == suffix[i - dot - 1];
      }
    }
    assert s[at] == AtSign && s[dot] == FullStop;
    assert EmailShape(s);
    EmailMatchesShape(s);
  }

  /** A trailing dot is accepted: the suffix after the first usable dot is "co.". */
  lemma EmailAcceptsTrailingDot()
    ensures EmailMatches(Utf16("a@b.co."))
  {
    TrailingDotUnits();
    AddressAccepted([0x61], [0x62], [0x63, 0x6F, 0x2E]);
    assert [0x61] + [AtSign] + [0x62] + [FullStop] + [0x63, 0x6F, 0x2E]
      == [0x61, 0x40, 0x62, 0x2E, 0x63, 0x6F, 0x2E];
  }

  /** The units of `a@b.` followed by U+1F600, which is one character. */
  lemma AstralUnits()
    ensures |"a@b.\U{1F600}"| == 5
    ensures Utf16("a@b.\U{1F600}") == [0x61, 0x40, 0x62, 0x2E, 0xD83D, 0xDE00]
  {
    Utf16Append("a@b.", "\U{1F600}");
    assert "a@b." + "\U{1F600}" == "a@b.\U{1F600}";
    Utf16Bmp("a@b.");
    assert Utf16("a@b.") == [0x61, 0x40, 0x62, 0x2E];
    assert Utf16("\U{1F600}") == Encode('\U{1F600}') + Utf16([]);
  }

  /** The suffix is counted in code units: one character outside the Basic
      Multilingual Plane is a surrogate pair, two units, and is enough. */
  lemma EmailCountsCodeUnits()
    ensures |"a@b.\U{1F600}"| == 5
    ensures EmailMatches(Utf16("a@b.\U{1F600}"))
  {
    AstralUnits();
    AddressAccepted([0x61], [0x62], [0xD83D, 0xDE00]);
    assert [0x61] + [AtSign] + [0x62] + [FullStop] + [0xD83D, 0xDE00]
      == [0x61, 0x40, 0x62, 0x2E, 0xD83D, 0xDE00];
  }

  /** Without an `@` the automaton never leaves the local part. */
  lemma {:induction false} RunWithoutAt(q: EmailState, s: seq<CodeUnit>)
    requires q == Start || q == Local || q == Dead
    requires forall i | 0 <= i < |s| :: s[i] != AtSign
    ensures Run(q, s) == Start || Run(q, s) == Local || Run(q, s) == Dead
    decreases |s|
  {
    if s != [] {
      assert s[0] != AtSign;
      RunWithoutAt(Step(q, s[0]), s[1..]);
    }
  }

  /** A string of Basic Multilingual Plane characters with no `@` is rejected. */
  lemma MissingAtRejected(s: string)
    requires forall i | 0 <= i < |s| :: s[i] as int < 0x1_0000 && s[i] != '@'
    ensures !EmailMatches(Utf16(s))
  {
    Utf16Bmp(s);
    RunWithoutAt(Start, Utf16(s));
  }

  lemma EmailRejectsMissingAt()
    ensures !EmailMatches(Utf16("not-an-email"))
  {
    MissingAtRejected("not-an-email");
  }

  /** A one-character suffix after the only dot is rejected. */
  lemma EmailRejectsShortSuffix()
    ensures !EmailMatches(Utf16("a@b.c"))
  {
    Utf16Bmp("a@b.c");
    var s := Utf16("a@b.c");
    assert s[1] == AtSign && s[3] == FullStop;
    EmailMatchesShape(s);
  }

  // ---------------------------------------------------------------------------
  // /^\d{4}-\d{2}$/

  /** The class `\d`: ASCII digits only, with or without flags. */
  predicate IsDigit(c: char) {
    '0' <= c <= '9'
  }

  predicate AllDigits(s: string) {
    forall i | 0 <= i < |s| :: IsDigit(s[i])
  }

  /** What `test` of the month regular expression answers for `s`. */
  /** A matching value is pure ASCII, so its UTF-16 units are its
      characters. */
  predicate MonthMatches(s: string): (b: bool)
    ensures b ==> forall i | 0 <= i < |s| :: s[i] as int < 0x80
  {
    && |s| == 7
    && IsDigit(s[0]) && IsDigit(s[1]) && IsDigit(s[2]) && IsDigit(s[3])
    && s[4] == '-'
    && IsDigit(s[5]) && IsDigit(s[6])
  }

  /** A four-digit year, a hyphen and a two-digit month, with no range check. */
  ghost predicate MonthShape(s: string) {
    exists year: string, month: string ::
      && s == year + "-" + month
      && |year| == 4 && AllDigits(year)
      && |month| == 2 && AllDigits(month)
  }

  lemma MonthMatchesShape(s: string)
    ensures MonthMatches(s) <==> MonthShape(s)
  {
    if MonthMatches(s) {
      assert s == s[..4] + "-" + s[5..];
      assert AllDigits(s[..4]) && AllDigits(s[5..]);
    }
    if MonthShape(s) {
      var year, month :| && s == year + "-" + month
        && |year| == 4 && AllDigits(year)
        && |month| == 2 && AllDigits(month);
      assert s[0] == year[0] && s[1] == year[1] && s[2] == year[2] && s[3] == year[3];
      assert s[5] == month[0] && s[6] == month[1];
    }
  }

  /** The month pattern checks shape only: month 13 passes, a one-digit month does not. */
  lemma MonthHasNoRangeCheck()
    ensures MonthMatches("2024-13") && MonthMatches("2024-06")
    ensures !MonthMatches("2024-6") && !MonthMatches("24-06")
  {
  }
}
