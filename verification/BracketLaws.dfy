/** What pattern text means: brackets member by member, negation, and the two wildcards. */
module BracketLaws {
  import opened FnMatch

  // ---------- spelling a bracket ----------

  /** One end of a member, written plainly or behind a backslash. */
  datatype End = End(c: char, quoted: bool)

  datatype Member = One(x: End) | Span(x: End, y: End)

  function Lowest(m: Member): char { m.x.c }

  function Highest(m: Member): char { if m.One? then m.x.c else m.y.c }

  function EndText(e: End): (t: string)
    ensures t != ""
  {
    if e.quoted then ['\\', e.c] else [e.c]
  }

  function MemberText(m: Member): (t: string)
    ensures t != ""
  {
    match m
    case One(x) => EndText(x)
    case Span(x, y) => EndText(x) + ("-" + EndText(y))
  }

  function Body(ms: seq<Member>): string
  {
    if ms == [] then "" else MemberText(ms[0]) + Body(ms[1..])
  }

  /** Any byte behind a backslash; plainly, any but a backslash, a '-' and a ']' that is not the first byte. */
  predicate Writable(e: End, first: bool)
  {
    e.quoted || (e.c != '\\' && e.c != '-' && (e.c != ']' || first))
  }

  predicate WritableMember(m: Member, first: bool)
  {
    Writable(m.x, first) && (m.Span? ==> Writable(m.y, false))
  }

  ghost predicate WritableBody(ms: seq<Member>, first: bool)
  {
    forall i :: 0 <= i < |ms| ==> WritableMember(ms[i], first && i == 0)
  }

  ghost predicate InSome(ms: seq<Member>, c: char)
  {
    exists i :: 0 <= i < |ms| && Lowest(ms[i]) <= c <= Highest(ms[i])
  }

  /** A '.' is written out as an end of a member. */
  ghost predicate WritesDot(ms: seq<Member>)
  {
    exists i :: 0 <= i < |ms| && (Lowest(ms[i]) == '.' || Highest(ms[i]) == '.')
  }

  function Pairs(ms: seq<Member>): (r: seq<(char, char)>)
    ensures |r| == |ms| && forall i :: 0 <= i < |ms| ==> r[i] == (Lowest(ms[i]), Highest(ms[i]))
  {
    if ms == [] then [] else [(Lowest(ms[0]), Highest(ms[0]))] + Pairs(ms[1..])
  }

  // ---------- reading it back ----------

  lemma EndRead(e: End, first: bool, rest: string)
    requires Writable(e, first)
    ensures FnMatch.Member(EndText(e) + rest) == (e.c, rest)
    ensures EndText(e) + rest != "" && (!first ==> (EndText(e) + rest)[0] != ']') && (EndText(e) + rest)[0] != '-'
  {
    var t := EndText(e) + rest;
    if e.quoted { assert t[2..] == rest; } else { assert t[1..] == rest; }
  }

  /** What follows a member is not taken for a range. */
  predicate NoDash(rest: string) { rest == "" || rest[0] != '-' }

  lemma {:induction false} MemberRead(m: Member, first: bool, rest: string)
    requires WritableMember(m, first) && NoDash(rest)
    ensures Range(MemberText(m) + rest) == ((Lowest(m), Highest(m)), rest)
    ensures (MemberText(m) + rest)[0] != '-' && (!first ==> (MemberText(m) + rest)[0] != ']')
  {
    hide EndText, FnMatch.Member;
    if m.One? {
      EndRead(m.x, first, rest);
    } else {
      var tail := EndText(m.y) + rest;
      EndRead(m.y, false, rest);
      var q := "-" + tail;
      EndRead(m.x, first, q);
      assert MemberText(m) + rest == EndText(m.x) + q;
      assert q[1..] == tail && q[1] == tail[0];
    }
  }

  lemma BodyStep(ms: seq<Member>)
    ensures Body(ms) == if ms == [] then "" else MemberText(ms[0]) + Body(ms[1..])
  {
  }

  lemma BodyFront(ms: seq<Member>, first: bool, rest: string)
    requires WritableBody(ms, first)
    ensures NoDash(Body(ms) + "]" + rest)
    ensures ms != [] ==> Body(ms) + "]" + rest == MemberText(ms[0]) + (Body(ms[1..]) + "]" + rest)
  {
    hide MemberText, Body;
    BodyStep(ms);
    if ms != [] {
      assert WritableMember(ms[0], first && 0 == 0);
      MemberFront(ms[0], first);
      assert (Body(ms) + "]" + rest)[0] == MemberText(ms[0])[0];
    }
  }

  lemma MemberFront(m: Member, first: bool)
    requires WritableMember(m, first)
    ensures MemberText(m)[0] != '-'
  {
  }

  lemma {:induction false} BodyRead(ms: seq<Member>, first: bool, rest: string)
    requires WritableBody(ms, first) && (first ==> ms != [])
    ensures Ranges(Body(ms) + "]" + rest, first) == Parsed(Pairs(ms), rest)
    decreases |ms|
  {
    hide MemberText, Range;
    var p := Body(ms) + "]" + rest;
    if ms == [] {
      assert p == "]" + rest && p[1..] == rest;
    } else {
      BodyFront(ms, first, rest);
      TailWritable(ms, first);
      BodyFront(ms[1..], false, rest);
      assert WritableMember(ms[0], first && 0 == 0);
      MemberRead(ms[0], first, Body(ms[1..]) + "]" + rest);
      BodyRead(ms[1..], false, rest);
    }
  }

  lemma TailWritable(ms: seq<Member>, first: bool)
    requires ms != [] && WritableBody(ms, first)
    ensures WritableBody(ms[1..], false)
  {
    forall i | 0 <= i < |ms| - 1 ensures WritableMember(ms[1..][i], false && i == 0) {
      assert WritableMember(ms[i + 1], first && i + 1 == 0);
    }
  }

  lemma EndDot(e: End, rest: string)
    requires Writable(e, false)
    ensures DotAhead(EndText(e) + rest) <==> e.c == '.' || DotAhead(rest)
  {
    var t := EndText(e) + rest;
    if e.quoted { assert t[2..] == rest; } else { assert t[1..] == rest; }
  }

  lemma DashDot(rest: string)
    ensures DotAhead("-" + rest) <==> DotAhead(rest)
  {
    assert ("-" + rest)[1..] == rest;
  }

  lemma {:induction false} MemberDot(m: Member, rest: string)
    requires WritableMember(m, false)
    ensures DotAhead(MemberText(m) + rest) <==> Lowest(m) == '.' || Highest(m) == '.' || DotAhead(rest)
  {
    hide EndText, DotAhead;
    if m.One? {
      EndDot(m.x, rest);
    } else {
      var tail := EndText(m.y) + rest;
      EndDot(m.y, rest);
      DashDot(tail);
      EndDot(m.x, "-" + tail);
      assert MemberText(m) + rest == EndText(m.x) + ("-" + tail);
    }
  }

  lemma {:induction false} BodyDot(ms: seq<Member>, rest: string)
    requires WritableBody(ms, false)
    ensures DotAhead(Body(ms) + "]" + rest) <==> WritesDot(ms)
    decreases |ms|
  {
    hide MemberText, DotAhead;
    if ms == [] {
      ClosedDot(rest);
      assert Body(ms) + "]" + rest == "]" + rest;
    } else {
      BodyFront(ms, false, rest);
      TailWritable(ms, false);
      assert WritableMember(ms[0], false && 0 == 0);
      MemberDot(ms[0], Body(ms[1..]) + "]" + rest);
      BodyDot(ms[1..], rest);
      WritesDotStep(ms);
    }
  }

  lemma ClosedDot(rest: string)
    ensures !DotAhead("]" + rest)
  {
  }

  lemma WritesDotStep(ms: seq<Member>)
    requires ms != []
    ensures WritesDot(ms) <==> Lowest(ms[0]) == '.' || Highest(ms[0]) == '.' || WritesDot(ms[1..])
  {
    if WritesDot(ms[1..]) {
      var i :| 0 <= i < |ms| - 1 && (Lowest(ms[1..][i]) == '.' || Highest(ms[1..][i]) == '.');
      assert ms[i + 1] == ms[1..][i];
    }
    if WritesDot(ms) {
      var i :| 0 <= i < |ms| && (Lowest(ms[i]) == '.' || Highest(ms[i]) == '.');
      if i > 0 { assert ms[1..][i - 1] == ms[i]; }
    }
  }

  // ---------- brackets mean what they say ----------

  /** "", "!" or "^" behind the '['. */
  predicate IsMark(mark: string) { mark == "" || mark == "!" || mark == "^" }

  function BracketText(mark: string, ms: seq<Member>): string { "[" + mark + (Body(ms) + "]") }

  /** Without a mark the body must not begin with one. */
  predicate MarkClear(mark: string, ms: seq<Member>)
    requires ms != []
  {
    mark == "" ==> ms[0].x.quoted || (ms[0].x.c != '!' && ms[0].x.c != '^')
  }

  lemma {:induction false} MarkRead(mark: string, body: string)
    requires IsMark(mark) && (mark == "" ==> body == "" || (body[0] != '!' && body[0] != '^'))
    ensures Inside("[" + mark + body) == body && (Negates(("[" + mark + body)[1..]) <==> mark != "")
  {
    var p := "[" + mark + body;
    assert p[1..] == mark + body;
    if mark != "" { assert p[2..] == body; }
  }

  lemma BodyBegins(ms: seq<Member>, rest: string)
    requires ms != []
    ensures (Body(ms) + rest)[0] == if ms[0].x.quoted then '\\' else ms[0].x.c
  {
  }

  lemma {:induction false} BracketParsed(mark: string, ms: seq<Member>)
    requires IsMark(mark) && ms != [] && WritableBody(ms, true) && MarkClear(mark, ms)
    ensures ParseBracket(BracketText(mark, ms)).Parsed?
    ensures
      var b := ParseBracket(BracketText(mark, ms));
      b.rest == "" && b.value.ranges == Pairs(ms) && (b.value.negated <==> mark != "")
  {
    hide Ranges, ListsDot, Body, Inside;
    var body := Body(ms) + "]";
    BodyBegins(ms, "]");
    MarkRead(mark, body);
    BodyRead(ms, true, "");
    assert body + "" == body;
  }

  lemma {:induction false} BracketDot(mark: string, ms: seq<Member>)
    requires IsMark(mark) && ms != [] && WritableBody(ms, true) && MarkClear(mark, ms)
    ensures ListsDot(BracketText(mark, ms)) <==> WritesDot(ms)
  {
    hide DotAhead, Body, Inside, MemberText;
    var body := Body(ms) + "]";
    BodyBegins(ms, "]");
    MarkRead(mark, body);
    assert body + "" == body;
    if ms[0].x.quoted || ms[0].x.c != ']' {
      NoFirstBracket(ms);
      BodyDot(ms, "");
    } else {
      FirstBracketDot(ms);
    }
  }

  lemma NoFirstBracket(ms: seq<Member>)
    requires ms != [] && WritableBody(ms, true) && (ms[0].x.quoted || ms[0].x.c != ']')
    ensures WritableBody(ms, false)
  {
    forall i | 0 <= i < |ms| ensures WritableMember(ms[i], false && i == 0) {
      assert WritableMember(ms[i], true && i == 0);
    }
  }

  /** The scan for a '.' begins behind a ']' in first place. */
  lemma {:induction false} FirstBracketDot(ms: seq<Member>)
    requires ms != [] && WritableBody(ms, true) && !ms[0].x.quoted && ms[0].x.c == ']'
    ensures (Body(ms) + "]")[0] == ']' && (DotAhead((Body(ms) + "]")[1..]) <==> WritesDot(ms))
  {
    hide DotAhead, Body, WritesDot, EndText;
    var rest := Body(ms[1..]) + "]";
    assert WritableMember(ms[0], true && 0 == 0);
    TailWritable(ms, true);
    BodyDot(ms[1..], "");
    assert rest + "" == rest;
    WritesDotStep(ms);
    FirstBracketText(ms);
    if ms[0].Span? {
      DashDot(EndText(ms[0].y) + rest);
      EndDot(ms[0].y, rest);
    }
  }

  lemma FirstBracketText(ms: seq<Member>)
    requires ms != [] && !ms[0].x.quoted && ms[0].x.c == ']'
    ensures (Body(ms) + "]")[0] == ']'
    ensures
      var rest := Body(ms[1..]) + "]";
      (Body(ms) + "]")[1..] == if ms[0].One? then rest else "-" + (EndText(ms[0].y) + rest)
  {
  }

  lemma PairsMean(ms: seq<Member>, b: Bracket, c: char)
    requires b.ranges == Pairs(ms)
    ensures InBracket(b, c) <==> (b.negated != InSome(ms, c))
  {
    if InSome(ms, c) {
      var i :| 0 <= i < |ms| && Lowest(ms[i]) <= c <= Highest(ms[i]);
      assert b.ranges[i].0 <= c <= b.ranges[i].1;
    }
    if InRanges(b.ranges, c) {
      var i :| 0 <= i < |b.ranges| && b.ranges[i].0 <= c <= b.ranges[i].1;
      assert Lowest(ms[i]) <= c <= Highest(ms[i]);
    }
  }

  /**
   The bracket as text: it matches a byte that lies in one of its members, or in none of them behind a '!' or '^'.
   FNM_PATHNAME takes out the slash, FNM_PERIOD a period that is not written out.
   */
  lemma {:induction false} BracketMeans(mark: string, ms: seq<Member>, s: string, fl: Flags)
    requires IsMark(mark) && ms != [] && WritableBody(ms, true) && MarkClear(mark, ms)
    ensures Matches(BracketText(mark, ms), s, fl) <==>
            && |s| == 1 && ((mark != "") != InSome(ms, s[0]))
            && !(fl.pathname && s[0] == '/')
            && (fl.period && s[0] == '.' ==> WritesDot(ms))
  {
    hide Lang, ParseBracket, ListsDot, InBracket, InSome, WritesDot, WritableBody, Tokenise;
    var p := BracketText(mark, ms);
    BracketParsed(mark, ms);
    BracketDot(mark, ms);
    assert p[0] == '[';
    LangBracket(p, s, fl, true);
    NoTokens(fl.noescape);
    if s != "" {
      PairsMean(ms, ParseBracket(p).value, s[0]);
      LangEnd(s[1..], fl, false);
    }
  }

  /** "[x-y]" is the bytes from x to y. */
  lemma {:induction false} RangeMeans(x: char, y: char, c: char)
    requires x !in "!^-\\]" && y !in "-\\]"
    ensures Matches("[" + [x] + "-" + [y] + "]", [c], Flags(false, false, false)) <==> x <= c <= y
  {
    var ms := [Span(End(x, false), End(y, false))];
    assert WritableMember(ms[0], true && 0 == 0);
    assert ms[1..] == [] && Body(ms) == [x] + ("-" + [y]);
    assert BracketText("", ms) == "[" + [x] + "-" + [y] + "]";
    BracketMeans("", ms, [c], Flags(false, false, false));
    assert ms[0].x.c == x && ms[0].y.c == y;
  }

  /** "[x]" is the byte x alone, and "[!x]" every other. */
  lemma {:induction false} OneMeans(x: char, c: char)
    requires x !in "!^-\\]"
    ensures Matches("[" + [x] + "]", [c], Flags(false, false, false)) <==> c == x
    ensures Matches("[!" + [x] + "]", [c], Flags(false, false, false)) <==> c != x
  {
    hide Matches, WritableBody, Body;
    var ms := [One(End(x, false))];
    OneText(x);
    BracketMeans("", ms, [c], Flags(false, false, false));
    BracketMeans("!", ms, [c], Flags(false, false, false));
    assert ms[0].x.c == x;
  }

  lemma OneText(x: char)
    requires x !in "-\\]"
    ensures
      var ms := [One(End(x, false))];
      && WritableBody(ms, true)
      && BracketText("", ms) == "[" + [x] + "]" && BracketText("!", ms) == "[!" + [x] + "]"
  {
    var ms := [One(End(x, false))];
    assert WritableMember(ms[0], true && 0 == 0);
    assert ms[1..] == [] && Body(ms) == [x];
  }

  // ---------- negation, whatever the body ----------

  /** The body is closed by the ']' behind it, and by none before. */
  ghost predicate ClosesLast(body: string)
  {
    ParseBracket("[" + body + "]").Parsed? && ParseBracket("[" + body + "]").rest == ""
  }

  lemma {:induction false} MarkedBody(mark: string, body: string)
    requires IsMark(mark) && ClosesLast(body) && body != "" && body[0] != '!' && body[0] != '^'
    ensures
      var b, c := ParseBracket("[" + body + "]"), ParseBracket("[" + mark + (body + "]"));
      c.Parsed? && c.rest == "" && c.value.ranges == b.value.ranges && (c.value.negated <==> mark != "")
  {
    hide Ranges, ListsDot, Inside;
    var t := body + "]";
    assert t[0] == body[0] && "[" + "" + t == "[" + body + "]";
    MarkRead("", t);
    MarkRead(mark, t);
  }

  /** Of a bracket and its negation exactly one matches each byte, the exceptions of the flags apart; '^' is '!'. */
  lemma {:induction false} NegationFlips(body: string, c: char, fl: Flags)
    requires ClosesLast(body) && body != "" && body[0] != '!' && body[0] != '^'
    requires !(fl.pathname && c == '/') && !(fl.period && c == '.')
    ensures Matches("[" + body + "]", [c], fl) <==> !Matches("[!" + body + "]", [c], fl)
    ensures Matches("[^" + body + "]", [c], fl) <==> Matches("[!" + body + "]", [c], fl)
  {
    hide Lang, ParseBracket, ListsDot, Tokenise;
    NoTokens(fl.noescape);
    LangEnd("", fl, false);
    assert [c][1..] == "";
    var t := body + "]";
    assert "[" + "!" + t == "[!" + body + "]" && "[" + "^" + t == "[^" + body + "]";
    MarkedBody("", body);
    MarkedBody("!", body);
    MarkedBody("^", body);
    assert "[" + "" + t == "[" + body + "]";
    LangBracket("[" + body + "]", [c], fl, true);
    LangBracket("[!" + body + "]", [c], fl, true);
    LangBracket("[^" + body + "]", [c], fl, true);
  }

  // ---------- the wildcards ----------

  /** "?" is one byte, "*" any string; FNM_PATHNAME takes out slashes, FNM_PERIOD a leading period. */
  lemma {:induction false} WildcardsMean(s: string, fl: Flags)
    ensures Matches("?", s, fl) <==> |s| == 1 && !(fl.pathname && s[0] == '/') && !(fl.period && s[0] == '.')
    ensures Matches("*", s, fl) <==> !(fl.pathname && '/' in s) && !(fl.period && s != "" && s[0] == '.')
  {
    hide Lang;
    NoTokens(fl.noescape);
    assert "?"[1..] == "" && "*"[1..] == "";
    LangAny("?", s, fl, true);
    if s != "" { LangEnd(s[1..], fl, false); }
    StarTokens("*", fl.noescape);
    assert SkipStars("*") == "";
    LangStar([], s, fl, true);
    StarLast(s, fl);
  }
}
