/** The lexical scanner and the state it carries from line to line. */
module Lexer {
  import opened Bytes

  datatype Lex = Normal | Single | Double | TripleSingle | TripleDouble
               | BlockComment | HtmlComment | JinjaComment | Backtick

  /** The parts of a buffer's syntax that the carried state depends on:
      0 text, 1 Python, 2 C family, 3 markup, 4 CSS, 5 Jinja. */
  datatype Syntax = Syntax(kind: nat, php: bool)

  const QUOTE: byte := 39
  const DQUOTE: byte := 34
  const BACKQUOTE: byte := 96
  const BACKSLASH: byte := 92
  const HASH: byte := 35
  const LT: byte := 60
  const SLASH: byte := 47
  const AT: byte := 64

  predicate IsDigit(b: byte) {
    48 <= b <= 57
  }

  predicate IsAlpha(b: byte) {
    65 <= b <= 90 || 97 <= b <= 122
  }

  predicate IsAlnum(b: byte) {
    IsDigit(b) || IsAlpha(b)
  }

  /** memcmp against a literal with its bounds check. */
  predicate Here(s: bytes, i: nat, lit: bytes) {
    i + |lit| <= |s| && s[i..i + |lit|] == lit
  }

  function Closer(st: Lex): bytes {
    match st
    case TripleSingle => [39, 39, 39]
    case TripleDouble => [34, 34, 34]
    case BlockComment => [42, 47]
    case HtmlComment => [45, 45, 62]
    case JinjaComment => [35, 125]
    case Single => [39]
    case Double => [34]
    case _ => [96]
  }

  predicate IsComment(st: Lex) {
    st.BlockComment? || st.HtmlComment? || st.JinjaComment?
  }

  /** Skip to just after the closer, or to the end of the line. */
  function CloseFrom(s: bytes, i: nat, st: Lex): (r: (nat, Lex))
    ensures i <= r.0 && (i < |s| ==> i < r.0 <= |s|)
    ensures r.1 == st || r.1 == Normal
    decreases |s| - i
  {
    if i >= |s| then (i, st)
    else if Here(s, i, Closer(st)) then (i + |Closer(st)|, Normal)
    else if !IsComment(st) && s[i] == BACKSLASH && i + 1 < |s| then CloseFrom(s, i + 2, st)
    else CloseFrom(s, i + 1, st)
  }

  /** Characters that continue a number, a tag name, a word or a decorator. */
  datatype Lexeme = Number | Tag | Word | Decorator

  predicate Continues(k: Lexeme, b: byte) {
    match k
    case Number => IsAlnum(b) || b == 95 || b == 46
    case Decorator => IsAlnum(b) || b == 95 || b == 46
    case Tag => IsAlnum(b) || b == 45 || b == 58 || b == 33
    case Word => IsAlnum(b) || b == 95 || b >= 128
  }

  function SkipWhile(k: Lexeme, s: bytes, i: nat): (r: nat)
    ensures i <= r && (i <= |s| ==> r <= |s|)
    decreases |s| - i
  {
    if i < |s| && Continues(k, s[i]) then SkipWhile(k, s, i + 1) else i
  }

  predicate LineComment(syn: Syntax, s: bytes, i: nat)
    requires i < |s|
  {
    || ((syn.kind == 1 || syn.kind == 5 || (syn.kind == 2 && syn.php)) && s[i] == HASH)
    || (syn.kind != 1 && Here(s, i, [47, 47]))
  }

  predicate Markup(syn: Syntax) {
    syn.kind == 3 || syn.kind == 5
  }

  /** A construct that opens a multi-byte state: its width and the state. */
  function Opens(syn: Syntax, s: bytes, i: nat): (r: (nat, Lex))
    requires i < |s|
    ensures r.1.Normal? || 0 < r.0 <= |s| - i
  {
    if syn.kind != 1 && Here(s, i, [47, 42]) then (2, BlockComment)
    else if Markup(syn) && Here(s, i, [60, 33, 45, 45]) then (4, HtmlComment)
    else if Markup(syn) && Here(s, i, [123, 35]) then (2, JinjaComment)
    else if s[i] == QUOTE || s[i] == DQUOTE || (syn.kind != 1 && s[i] == BACKQUOTE) then
      var q := s[i];
      if syn.kind == 1 && i + 3 <= |s| && s[i + 1] == q && s[i + 2] == q then
        (3, if q == QUOTE then TripleSingle else TripleDouble)
      else
        (1, if q == QUOTE then Single else if q == DQUOTE then Double else Backtick)
    else (0, Normal)
  }

  // ---- The tables of delimiters ---------------------------------------------------

  /** The literals that open a comment or string, by language. */
  function Opener(syn: Syntax, lit: bytes): Lex {
    if lit == Lit("'") then Single
    else if lit == Lit("\"") then Double
    else if syn.kind == 1 && lit == Lit("'''") then TripleSingle
    else if syn.kind == 1 && lit == Lit("\"\"\"") then TripleDouble
    else if syn.kind != 1 && lit == Lit("`") then Backtick
    else if syn.kind != 1 && lit == Lit("/*") then BlockComment
    else if syn.kind in {3, 5} && lit == Lit("<!--") then HtmlComment
    else if syn.kind in {3, 5} && lit == Lit("{#") then JinjaComment
    else Normal
  }

  /** The literal that closes a comment or string. */
  function Ending(st: Lex): bytes
    requires !st.Normal?
  {
    match st
    case Single => Lit("'")
    case Double => Lit("\"")
    case TripleSingle => Lit("'''")
    case TripleDouble => Lit("\"\"\"")
    case Backtick => Lit("`")
    case BlockComment => Lit("*/")
    case HtmlComment => Lit("-->")
    case JinjaComment => Lit("#}")
  }

  /** The literals that make a comment of the rest of the line, by language. */
  predicate Remark(syn: Syntax, lit: bytes) {
    || (syn.kind in {1, 5} && lit == Lit("#")) || (syn.kind == 2 && syn.php && lit == Lit("#"))
    || (syn.kind != 1 && lit == Lit("//"))
  }

  lemma LitBytes(a: char, b: char, c: char, d: char)
    requires a < 128 as char && b < 128 as char && c < 128 as char && d < 128 as char
    ensures Lit([a]) == [a as int] && Lit([a, b]) == [a as int, b as int]
    ensures Lit([a, b, c]) == [a as int, b as int, c as int]
    ensures Lit([a, b, c, d]) == [a as int, b as int, c as int, d as int]
  {
  }

  lemma Quotes()
    ensures Lit("'") == [39] && Lit("\"") == [34] && Lit("`") == [96] && Lit("#") == [35]
    ensures Lit("'''") == [39, 39, 39] && Lit("\"\"\"") == [34, 34, 34]
  {
    hide Lit;
    LitBytes('\'', '\'', '\'', '\'');
    LitBytes('\"', '\"', '\"', '\"');
    LitBytes('`', '`', '`', '`');
    LitBytes('#', '#', '#', '#');
  }

  lemma Marks()
    ensures Lit("/*") == [47, 42] && Lit("*/") == [42, 47] && Lit("//") == [47, 47]
    ensures Lit("{#") == [123, 35] && Lit("#}") == [35, 125] && Lit("</") == [60, 47] && Lit("{{") == [123, 123]
    ensures Lit("<!--") == [60, 33, 45, 45] && Lit("-->") == [45, 45, 62]
  {
    hide Lit;
    LitBytes('/', '*', '*', '*');
    LitBytes('*', '/', '/', '/');
    LitBytes('/', '/', '/', '/');
    LitBytes('{', '#', '#', '#');
    LitBytes('#', '}', '}', '}');
    LitBytes('{', '{', '{', '{');
    LitBytes('<', '/', '/', '/');
    LitBytes('<', '!', '-', '-');
    LitBytes('-', '-', '>', '>');
  }

  /** The longest opener that stands at i decides; none does exactly when the
      state stays Normal. */
  lemma OpensLongest(syn: Syntax, s: bytes, i: nat)
    requires i < |s|
    ensures var (w, st) := Opens(syn, s, i);
            && (!st.Normal? ==> Opener(syn, s[i..i + w]) == st)
            && forall j :: i + w < j <= |s| ==> Opener(syn, s[i..j]).Normal?
  {
    var (w, st) := Opens(syn, s, i);
    HereBytes(s, i);
    if !st.Normal? { OpenerBytes(syn, s, i, i + w); }
    hide Opener;
    forall j | i + w < j <= |s|
      ensures Opener(syn, s[i..j]).Normal?
    {
      OpenerBytes(syn, s, i, j);
    }
  }

  predicate CommentMark(s: bytes, i: nat)
    requires i + 4 <= |s|
  {
    s[i] == 60 && s[i + 1] == 33 && s[i + 2] == 45 && s[i + 3] == 45
  }

  /** Opener of the bytes from i to j, byte by byte. */
  function OpenerAt(syn: Syntax, s: bytes, i: nat, j: nat): Lex
    requires i < j <= |s|
  {
    if j == i + 1 then
      if s[i] == QUOTE then Single else if s[i] == DQUOTE then Double
      else if syn.kind != 1 && s[i] == BACKQUOTE then Backtick else Normal
    else if j == i + 2 then
      if syn.kind != 1 && s[i] == 47 && s[i + 1] == 42 then BlockComment
      else if Markup(syn) && s[i] == 123 && s[i + 1] == 35 then JinjaComment else Normal
    else if j == i + 3 && syn.kind == 1 && s[i] == s[i + 1] == s[i + 2] then
      if s[i] == QUOTE then TripleSingle else if s[i] == DQUOTE then TripleDouble else Normal
    else if j == i + 4 && Markup(syn) && CommentMark(s, i) then HtmlComment
    else Normal
  }

  lemma OpenerBytes(syn: Syntax, s: bytes, i: nat, j: nat)
    requires i < j <= |s|
    ensures Opener(syn, s[i..j]) == OpenerAt(syn, s, i, j)
  {
    hide Lit;
    Quotes();
    Marks();
    var lit := s[i..j];
    assert lit[0] == s[i];
    if j == i + 2 { assert lit == [s[i], s[i + 1]]; }
    if j == i + 3 { assert lit == [s[i], s[i + 1], s[i + 2]]; }
    if j == i + 4 { assert lit == [s[i], s[i + 1], s[i + 2], s[i + 3]]; }
  }

  lemma HereBytes(s: bytes, i: nat)
    requires i < |s|
    ensures forall x: byte, y: byte :: Here(s, i, [x, y]) <==> i + 2 <= |s| && s[i] == x && s[i + 1] == y
    ensures Here(s, i, [60, 33, 45, 45]) <==> i + 4 <= |s| && CommentMark(s, i)
  {
    HerePair(s, i);
    if i + 4 <= |s| { assert s[i..i + 4] == [s[i], s[i + 1], s[i + 2], s[i + 3]]; }
  }

  predicate TemplateMark(s: bytes, i: nat) {
    Here(s, i, [123, 123]) || Here(s, i, [125, 125]) || Here(s, i, [123, 37]) || Here(s, i, [37, 125])
  }

  /** Where the next token of ordinary code ends. */
  function TokenEnd(syn: Syntax, s: bytes, i: nat): (j: nat)
    requires i < |s|
    ensures i < j <= |s|
  {
    if IsDigit(s[i]) && (i == 0 || (!IsAlnum(s[i - 1]) && s[i - 1] != 95)) then SkipWhile(Number, s, i + 1)
    else if Markup(syn) && s[i] == LT then
      SkipWhile(Tag, s, if i + 1 < |s| && s[i + 1] == SLASH then i + 2 else i + 1)
    else if Markup(syn) && TemplateMark(s, i) then i + 2
    else if IsAlpha(s[i]) || s[i] == 95 || s[i] >= 128 then SkipWhile(Word, s, i + 1)
    else if syn.kind == 1 && s[i] == AT then SkipWhile(Decorator, s, i + 1)
    else i + 1
  }

  /** A plain string does not survive the line unless its newline is escaped. */
  function Finish(s: bytes, st: Lex): Lex {
    if (st.Single? || st.Double?) && (|s| == 0 || s[|s| - 1] != BACKSLASH) then Normal else st
  }

  function ScanFrom(syn: Syntax, s: bytes, i: nat, st: Lex): Lex
    decreases |s| - i
  {
    if i >= |s| then Finish(s, st)
    else if !st.Normal? then
      var (j, st') := CloseFrom(s, i, st);
      ScanFrom(syn, s, j, st')
    else if LineComment(syn, s, i) then Normal
    else
      var (w, st') := Opens(syn, s, i);
      if !st'.Normal? then ScanFrom(syn, s, i + w, st')
      else ScanFrom(syn, s, TokenEnd(syn, s, i), Normal)
  }

  /** scan: the state after a line that starts in state st. */
  function ScanLine(syn: Syntax, s: bytes, st: Lex): Lex {
    if syn.kind == 0 then Normal else ScanFrom(syn, s, 0, st)
  }

  // ---- The scanner -------------------------------------------------------------

  /** scan, without its span output. */
  method Scan(syn: Syntax, s: bytes, state: Lex) returns (r: Lex)
    ensures r == ScanLine(syn, s, state)
  {
    hide CloseFrom, Opens, LineComment, TokenEnd;
    if syn.kind == 0 { return Normal; }
    r := state;
    var i: nat := 0;
    while i < |s|
      invariant i <= |s|
      invariant ScanFrom(syn, s, 0, state) == ScanFrom(syn, s, i, r)
      decreases |s| - i
    {
      if r != Normal {
        i, r := ScanToClose(s, i, r);
      } else if LineComment(syn, s, i) {
        return Normal;
      } else {
        var w, st := ScanOpen(syn, s, i);
        if st != Normal {
          i, r := i + w, st;
        } else {
          i := ScanToken(syn, s, i);
        }
      }
    }
    if (r == Single || r == Double) && (|s| == 0 || s[|s| - 1] != BACKSLASH) { r := Normal; }
  }

  method ScanToClose(s: bytes, at: nat, st: Lex) returns (i: nat, r: Lex)
    requires at < |s|
    ensures (i, r) == CloseFrom(s, at, st)
  {
    i, r := at, st;
    var close, comment := Closer(st), IsComment(st);
    while i < |s|
      invariant at <= i <= |s|
      invariant CloseFrom(s, at, st) == CloseFrom(s, i, st)
    {
      if Here(s, i, close) { return i + |close|, Normal; }
      if !comment && s[i] == BACKSLASH && i + 1 < |s| { i := i + 2; } else { i := i + 1; }
    }
  }

  method ScanOpen(syn: Syntax, s: bytes, i: nat) returns (w: nat, st: Lex)
    requires i < |s|
    ensures (w, st) == Opens(syn, s, i)
  {
    if syn.kind != 1 && Here(s, i, [47, 42]) { return 2, BlockComment; }
    if Markup(syn) && Here(s, i, [60, 33, 45, 45]) { return 4, HtmlComment; }
    if Markup(syn) && Here(s, i, [123, 35]) { return 2, JinjaComment; }
    if s[i] == QUOTE || s[i] == DQUOTE || (syn.kind != 1 && s[i] == BACKQUOTE) {
      var q := s[i];
      w := 1;
      if syn.kind == 1 && i + 3 <= |s| && s[i + 1] == q && s[i + 2] == q {
        st := if q == QUOTE then TripleSingle else TripleDouble;
        w := 3;
      } else {
        st := if q == QUOTE then Single else if q == DQUOTE then Double else Backtick;
      }
      return;
    }
    return 0, Normal;
  }

  method SkipLexeme(k: Lexeme, s: bytes, at: nat) returns (i: nat)
    requires at <= |s|
    ensures i == SkipWhile(k, s, at)
  {
    i := at;
    while i < |s| && Continues(k, s[i])
      invariant at <= i <= |s| && SkipWhile(k, s, at) == SkipWhile(k, s, i)
    {
      i := i + 1;
    }
  }

  method ScanToken(syn: Syntax, s: bytes, at: nat) returns (i: nat)
    requires at < |s|
    ensures i == TokenEnd(syn, s, at)
  {
    i := at;
    if IsDigit(s[i]) && (i == 0 || (!IsAlnum(s[i - 1]) && s[i - 1] != 95)) {
      i := SkipLexeme(Number, s, i + 1);
    } else if Markup(syn) && s[i] == LT {
      i := i + 1;
      if i < |s| && s[i] == SLASH { i := i + 1; }
      i := SkipLexeme(Tag, s, i);
    } else if Markup(syn) && TemplateMark(s, i) {
      i := i + 2;
    } else if IsAlpha(s[i]) || s[i] == 95 || s[i] >= 128 {
      i := SkipLexeme(Word, s, i + 1);
    } else if syn.kind == 1 && s[i] == AT {
      i := SkipLexeme(Decorator, s, i + 1);
    } else {
      i := i + 1;
    }
  }

  // ---- What the carried state really depends on -------------------------------

  /** Only `</` and `{{` hide a byte that could otherwise open something. */
  function PlainStep(syn: Syntax, s: bytes, i: nat): (j: nat)
    requires i < |s|
    ensures i < j <= |s|
  {
    if Markup(syn) && (Here(s, i, [60, 47]) || Here(s, i, [123, 123])) then i + 2 else i + 1
  }

  /** The scanner without numbers, names, tags and decorators: a bare automaton
      of comment and string delimiters. */
  function DelimiterFrom(syn: Syntax, s: bytes, i: nat, st: Lex): Lex
    decreases |s| - i
  {
    if i >= |s| then Finish(s, st)
    else if !st.Normal? then
      var (j, st') := CloseFrom(s, i, st);
      DelimiterFrom(syn, s, j, st')
    else if LineComment(syn, s, i) then Normal
    else
      var (w, st') := Opens(syn, s, i);
      if !st'.Normal? then DelimiterFrom(syn, s, i + w, st')
      else DelimiterFrom(syn, s, PlainStep(syn, s, i), Normal)
  }

  /** A byte that continues a lexeme opens nothing. */
  lemma {:induction false} SkipNeutral(k: Lexeme, syn: Syntax, s: bytes, i: nat)
    requires i <= |s|
    ensures DelimiterFrom(syn, s, i, Normal) == DelimiterFrom(syn, s, SkipWhile(k, s, i), Normal)
    decreases |s| - i
  {
    if i < |s| && Continues(k, s[i]) {
      Inert(k, syn, s, i);
      SkipNeutral(k, syn, s, i + 1);
    }
  }

  lemma Inert(k: Lexeme, syn: Syntax, s: bytes, i: nat)
    requires i < |s| && Continues(k, s[i])
    ensures !LineComment(syn, s, i) && Opens(syn, s, i).1 == Normal && PlainStep(syn, s, i) == i + 1
  {
    HereFirst(s, i);
  }

  lemma HereFirst(s: bytes, i: nat)
    requires i < |s|
    ensures forall lit: bytes :: lit != [] && Here(s, i, lit) ==> s[i] == lit[0]
  {
    forall lit: bytes | lit != [] && Here(s, i, lit)
      ensures s[i] == lit[0]
    {
      assert s[i..i + |lit|][0] == s[i];
    }
  }

  /** Where nothing opens, the automaton makes one plain step. */
  lemma OneStep(syn: Syntax, s: bytes, i: nat)
    requires i < |s| && !LineComment(syn, s, i) && Opens(syn, s, i).1 == Normal
    ensures DelimiterFrom(syn, s, i, Normal) == DelimiterFrom(syn, s, PlainStep(syn, s, i), Normal)
  {
    hide LineComment, Opens, PlainStep;
  }

  lemma TokenNeutral(syn: Syntax, s: bytes, i: nat)
    requires i < |s| && !LineComment(syn, s, i) && Opens(syn, s, i).1 == Normal
    ensures DelimiterFrom(syn, s, i, Normal) == DelimiterFrom(syn, s, TokenEnd(syn, s, i), Normal)
  {
    hide DelimiterFrom, SkipWhile, Opens, LineComment;
    var j := PlainStep(syn, s, i);
    OneStep(syn, s, i);
    HereFirst(s, i);
    HerePair(s, i);
    if IsDigit(s[i]) && (i == 0 || (!IsAlnum(s[i - 1]) && s[i - 1] != 95)) {
      SkipNeutral(Number, syn, s, i + 1);
    } else if Markup(syn) && s[i] == LT {
      SkipNeutral(Tag, syn, s, j);
    } else if Markup(syn) && (Here(s, i, [125, 125]) || Here(s, i, [123, 37]) || Here(s, i, [37, 125])) {
      PairNeutral(syn, s, i);
    } else if IsAlpha(s[i]) || s[i] == 95 || s[i] >= 128 {
      SkipNeutral(Word, syn, s, i + 1);
    } else if syn.kind == 1 && s[i] == AT {
      SkipNeutral(Decorator, syn, s, i + 1);
    }
  }

  lemma HerePair(s: bytes, i: nat)
    requires i < |s|
    ensures forall x: byte, y: byte :: Here(s, i, [x, y]) <==> i + 2 <= |s| && s[i] == x && s[i + 1] == y
  {
    forall x: byte, y: byte
      ensures Here(s, i, [x, y]) <==> i + 2 <= |s| && s[i] == x && s[i + 1] == y
    {
      if i + 2 <= |s| { assert s[i..i + 2] == [s[i], s[i + 1]]; }
    }
  }

  /** The second byte of `}}`, `{%` and `%}` opens nothing either. */
  lemma PairNeutral(syn: Syntax, s: bytes, i: nat)
    requires i + 1 < |s| && (s[i + 1] == 125 || s[i + 1] == 37)
    ensures DelimiterFrom(syn, s, i + 1, Normal) == DelimiterFrom(syn, s, i + 2, Normal)
  {
    NothingOpens(syn, s, i + 1);
    OneStep(syn, s, i + 1);
  }

  lemma NothingOpens(syn: Syntax, s: bytes, i: nat)
    requires i < |s| && (s[i] == 125 || s[i] == 37)
    ensures !LineComment(syn, s, i) && Opens(syn, s, i).1 == Normal && PlainStep(syn, s, i) == i + 1
  {
    HereFirst(s, i);
  }

  /** The state carried to the next line is that of the delimiter automaton:
      numbers, words, tag names and decorators never change it. */
  lemma {:induction false} ScanIsDelimiters(syn: Syntax, s: bytes, i: nat, st: Lex)
    ensures ScanFrom(syn, s, i, st) == DelimiterFrom(syn, s, i, st)
    decreases |s| - i
  {
    if i >= |s| {
    } else if !st.Normal? {
      var (j, st') := CloseFrom(s, i, st);
      ScanIsDelimiters(syn, s, j, st');
    } else if !LineComment(syn, s, i) {
      var (w, st') := Opens(syn, s, i);
      if !st'.Normal? {
        ScanIsDelimiters(syn, s, i + w, st');
      } else {
        ScanIsDelimiters(syn, s, TokenEnd(syn, s, i), Normal);
        TokenNeutral(syn, s, i);
      }
    }
  }

  // ---- The scanner's steps, by the tables -------------------------------------------

  /** How many backslashes stand right before k, not counting any before i. */
  function Backslashes(s: bytes, i: nat, k: nat): (n: nat)
    requires k <= |s|
    ensures i <= k ==> n <= k - i
  {
    if i < k && s[k - 1] == '\\' as int then Backslashes(s, i, k - 1) + 1 else 0
  }

  /** The closing literal stands at k; in a string no backslash escapes it. */
  predicate EndsAt(s: bytes, i: nat, st: Lex, k: nat)
    requires !st.Normal?
  {
    && i <= k && k + |Ending(st)| <= |s| && s[k..k + |Ending(st)|] == Ending(st)
    && (st in {BlockComment, HtmlComment, JinjaComment} || Backslashes(s, i, k) % 2 == 0)
  }

  lemma EndingIsCloser(st: Lex)
    requires !st.Normal?
    ensures Ending(st) == Closer(st) && |Closer(st)| > 0 && Closer(st)[0] != BACKSLASH
    ensures IsComment(st) <==> st in {BlockComment, HtmlComment, JinjaComment}
  {
    hide Lit;
    Quotes();
    Marks();
  }

  /** A run of backslashes counted from further on. */
  lemma {:induction false} BackslashesFrom(s: bytes, i: nat, m: nat, k: nat)
    requires i <= m <= k <= |s|
    ensures Backslashes(s, i, k)
         == if Backslashes(s, m, k) == k - m then k - m + Backslashes(s, i, m) else Backslashes(s, m, k)
  {
    if m < k { BackslashesFrom(s, i, m, k - 1); }
  }

  /** What closes at k, seen from i or from where the scan has got to. */
  lemma EndsFrom(s: bytes, i: nat, m: nat, st: Lex, k: nat)
    requires !st.Normal? && i < m <= |s| && m <= k
    requires (m == i + 1 && (IsComment(st) || s[i] != BACKSLASH)) || (m == i + 2 && s[i] == BACKSLASH)
    ensures EndsAt(s, i, st, k) <==> EndsAt(s, m, st, k)
  {
    hide Ending;
    EndingIsCloser(st);
    if k <= |s| {
      BackslashesFrom(s, i, m, k);
      if m == i + 2 { assert Backslashes(s, i, i + 1) == 1 + Backslashes(s, i, i); }
    }
  }

  /** A comment or string goes on to just after the first place it ends at, or
      to the end of the line. */
  lemma {:induction false} ClosesFirst(s: bytes, i: nat, st: Lex)
    requires !st.Normal? && i <= |s|
    ensures var (j, r) := CloseFrom(s, i, st); var n := |Ending(st)|;
            && (r.Normal? ==> i + n <= j && EndsAt(s, i, st, j - n))
            && (r.Normal? ==> forall k :: i <= k < j - n ==> !EndsAt(s, i, st, k))
            && (!r.Normal? ==> r == st && j == |s| && forall k :: i <= k ==> !EndsAt(s, i, st, k))
    decreases |s| - i
  {
    hide Ending, Closer, IsComment, EndsAt;
    var (j, r) := CloseFrom(s, i, st);
    EndingIsCloser(st);
    if i < |s| {
      ClosedHere(s, i, st);
      if !Here(s, i, Closer(st)) {
        var m := if !IsComment(st) && s[i] == BACKSLASH && i + 1 < |s| then i + 2 else i + 1;
        ClosesFirst(s, m, st);
        EndsLater(s, i, m, st);
      }
    } else {
      ClosedHere(s, i, st);
    }
  }

  lemma ClosedHere(s: bytes, i: nat, st: Lex)
    requires !st.Normal? && i <= |s|
    ensures EndsAt(s, i, st, i) <==> Here(s, i, Closer(st))
    ensures i == |s| ==> forall k :: i <= k ==> !EndsAt(s, i, st, k)
  {
    hide Ending;
    EndingIsCloser(st);
  }

  lemma EndsLater(s: bytes, i: nat, m: nat, st: Lex)
    requires !st.Normal? && i < |s| && !Here(s, i, Closer(st))
    requires m == if !IsComment(st) && s[i] == BACKSLASH && i + 1 < |s| then i + 2 else i + 1
    ensures forall k :: i <= k < m ==> !EndsAt(s, i, st, k)
    ensures forall k :: m <= k ==> (EndsAt(s, i, st, k) <==> EndsAt(s, m, st, k))
  {
    hide Ending, Closer, IsComment, EndsAt;
    ClosedHere(s, i, st);
    EndingIsCloser(st);
    if m == i + 2 { Escapes(s, i, st); }
    if m == |s| { ClosedHere(s, m, st); }
    forall k | m <= k
      ensures EndsAt(s, i, st, k) <==> EndsAt(s, m, st, k)
    {
      if m < |s| { EndsFrom(s, i, m, st, k); } else { PastEnd(s, i, m, st, k); }
    }
  }

  lemma Escapes(s: bytes, i: nat, st: Lex)
    requires !st.Normal? && !IsComment(st) && i + 1 < |s| && s[i] == BACKSLASH
    ensures !EndsAt(s, i, st, i + 1)
  {
    hide Ending;
    EndingIsCloser(st);
    assert Backslashes(s, i, i + 1) == 1 + Backslashes(s, i, i);
  }

  lemma PastEnd(s: bytes, i: nat, m: nat, st: Lex, k: nat)
    requires !st.Normal? && |s| <= k
    ensures !EndsAt(s, i, st, k) && !EndsAt(s, m, st, k)
  {
    hide Ending;
    EndingIsCloser(st);
  }

  /** Where a comment or string ends decides how the line goes on. */
  lemma ScanCloses(syn: Syntax, s: bytes, i: nat, st: Lex, k: nat)
    requires !st.Normal? && i <= |s|
    requires EndsAt(s, i, st, k) && forall j :: i <= j < k ==> !EndsAt(s, i, st, j)
    ensures ScanFrom(syn, s, i, st) == ScanFrom(syn, s, k + |Ending(st)|, Normal)
  {
    hide Ending, CloseFrom, Opens, LineComment, TokenEnd;
    ClosesFirst(s, i, st);
    if i == |s| { PastEnd(s, i, i, st, k); }
  }

  /** A comment or string that does not end on the line is carried over, but a
      plain string only when the line ends with a backslash. */
  lemma ScanCarries(syn: Syntax, s: bytes, i: nat, st: Lex)
    requires !st.Normal? && i <= |s| && forall k :: i <= k ==> !EndsAt(s, i, st, k)
    ensures ScanFrom(syn, s, i, st)
         == if st in {Single, Double} && !(|s| > 0 && s[|s| - 1] == '\\' as int) then Normal else st
  {
    hide Ending, EndsAt, CloseFrom, Opens, LineComment, TokenEnd;
    ClosesFirst(s, i, st);
  }

  /** A line comment starts at i. */
  predicate Remarked(syn: Syntax, s: bytes, i: nat) {
    exists j :: i < j <= |s| && Remark(syn, s[i..j])
  }

  lemma RemarkHere(syn: Syntax, s: bytes, i: nat)
    requires i < |s|
    ensures LineComment(syn, s, i) <==> Remarked(syn, s, i)
  {
    hide Lit;
    Quotes();
    Marks();
    if LineComment(syn, s, i) {
      assert s[i..i + 1] == [s[i]];
      if !Remark(syn, s[i..i + 1]) { assert Remark(syn, s[i..i + 2]); }
    } else {
      forall j | i < j <= |s|
        ensures !Remark(syn, s[i..j])
      {
        assert s[i..j][0] == s[i];
      }
    }
  }

  /** The longest opener at i is the bytes up to j. */
  predicate Longest(syn: Syntax, s: bytes, i: nat, j: nat)
    requires i < j <= |s|
  {
    !Opener(syn, s[i..j]).Normal? && forall k :: j < k <= |s| ==> Opener(syn, s[i..k]).Normal?
  }

  /** In ordinary code a line comment ends the line; otherwise the longest
      opener goes on behind itself in its state. */
  lemma ScanOpens(syn: Syntax, s: bytes, i: nat, j: nat)
    requires i < j <= |s|
    ensures Remarked(syn, s, i) ==> ScanFrom(syn, s, i, Normal) == Normal
    ensures !Remarked(syn, s, i) && Longest(syn, s, i, j) ==>
            ScanFrom(syn, s, i, Normal) == ScanFrom(syn, s, j, Opener(syn, s[i..j]))
  {
    hide Remark, Opener, CloseFrom, Opens, LineComment, TokenEnd, Finish;
    RemarkHere(syn, s, i);
    OpensLongest(syn, s, i);
    OpenWidth(syn, s, i);
    if Longest(syn, s, i, j) { assert j <= i + Opens(syn, s, i).0; }
  }

  lemma OpenWidth(syn: Syntax, s: bytes, i: nat)
    requires i < |s|
    ensures i + Opens(syn, s, i).0 <= |s|
    ensures Opens(syn, s, i).1.Normal? ==> Opens(syn, s, i).0 == 0
  {
  }

  /** Where nothing opens, one byte is skipped, or two of `</` and of `{{` in
      markup: numbers, words, tags and decorators make no difference. */
  lemma ScanSkips(syn: Syntax, s: bytes, i: nat)
    requires i < |s| && !Remarked(syn, s, i) && forall j :: i < j <= |s| ==> Opener(syn, s[i..j]).Normal?
    ensures var pair := i + 2 <= |s| && syn.kind in {3, 5} && s[i..i + 2] in [Lit("</"), Lit("{{")];
            ScanFrom(syn, s, i, Normal) == ScanFrom(syn, s, if pair then i + 2 else i + 1, Normal)
  {
    hide Remark, Opener, CloseFrom, Opens, LineComment, TokenEnd, Finish, Lit;
    Marks();
    RemarkHere(syn, s, i);
    OpensLongest(syn, s, i);
    OpenWidth(syn, s, i);
    OneStep(syn, s, i);
    var j := PlainStep(syn, s, i);
    ScanIsDelimiters(syn, s, i, Normal);
    ScanIsDelimiters(syn, s, j, Normal);
  }

  /** A line ends in the state it is in; without a language nothing is carried. */
  lemma ScanEndsLine(syn: Syntax, s: bytes, st: Lex)
    ensures ScanFrom(syn, s, |s|, Normal) == Normal
    ensures ScanLine(syn, s, st) == if syn.kind == 0 then Normal else ScanFrom(syn, s, 0, st)
  {
  }

  // ---- The cache ----------------------------------------------------------------

  /** State at the beginning of a row: scan every line before it. */
  function StateAtRow(syn: Syntax, c: bytes, row: nat): Lex {
    if row == 0 then Normal else ScanLine(syn, Line(c, row - 1), StateAtRow(syn, c, row - 1))
  }

  predicate LexCacheOk(syn: Syntax, c: bytes, states: seq<Lex>, valid: nat) {
    valid <= |states| && forall i :: 0 <= i < valid ==> states[i] == StateAtRow(syn, c, i)
  }

  lemma {:induction false} RowPrefix(syn: Syntax, c: bytes, d: bytes, k: nat, row: nat)
    requires k <= |c| && k <= |d| && c[..k] == d[..k] && row <= Count(Newlines, c[..k])
    ensures StateAtRow(syn, c, row) == StateAtRow(syn, d, row)
  {
    hide Line, ScanLine, Count;
    if row > 0 {
      LinePrefix(c, d, k, row - 1);
      RowPrefix(syn, c, d, k, row - 1);
    }
  }

  /** What editor_lex_invalidate leaves of the row count. */
  function Invalidated(c: bytes, valid: nat, at: nat): nat {
    if valid > LineOf(c, at) + 1 then LineOf(c, at) + 1 else valid
  }

  /** Entries up to the edited row stay right after an edit at offset `at`. */
  lemma InvalidateSound(syn: Syntax, c: bytes, d: bytes, at: nat, states: seq<Lex>, valid: nat)
    requires LexCacheOk(syn, c, states, valid)
    requires at <= |c| && at <= |d| && c[..at] == d[..at]
    ensures LexCacheOk(syn, d, states, Invalidated(c, valid, at))
  {
    forall i | 0 <= i < Invalidated(c, valid, at)
      ensures states[i] == StateAtRow(syn, d, i)
    {
      RowPrefix(syn, c, d, at, i);
    }
  }
}
