/**
 A reader for the part of JSON that the agent writes (RFC 8259, sections 2 to 7): objects, arrays,
 integers and strings without escapes, with any insignificant white space. Every text it accepts is a
 JSON text; texts that use literals, fractions, exponents or escapes are outside it.

 Reading is done in two steps: `Lex` cuts a text into tokens, `Value` reads one value from tokens.
 `LexConcat` says that lexing distributes over concatenation, and `ValueOfTokens` that reading inverts
 `Tokens`, so a text is known to parse as soon as its tokens are known to be those of a value.
 */
module Json {
  import opened Wrappers

  datatype Json =
    | Num(n: int)
    | Str(s: string)
    | Arr(items: seq<Json>)
    | Obj(members: seq<Member>)

  datatype Member = Member(key: string, value: Json)

  datatype Token =
    | LBrace | RBrace | LBracket | RBracket | Colon | Comma
    | TNum(n: int)
    | TStr(s: string)

  // ---------------------------------------------------------------- characters

  predicate IsSpace(c: char) {
    c == ' ' || c == '\t' || c == '\n' || c == '\r'
  }

  predicate IsDigit(c: char) {
    '0' <= c <= '9'
  }

  /** A character that stands for itself inside a string. */
  predicate IsPlain(c: char) {
    ' ' <= c && c != '"' && c != '\\'
  }

  predicate PlainText(s: string) {
    forall i | 0 <= i < |s| :: IsPlain(s[i])
  }

  function Punctuation(c: char): seq<Token> {
    match c
    case '{' => [LBrace]
    case '}' => [RBrace]
    case '[' => [LBracket]
    case ']' => [RBracket]
    case ':' => [Colon]
    case ',' => [Comma]
    case _ => []
  }

  function SpanDigits(s: string): (k: nat)
    ensures k <= |s|
    ensures forall i | 0 <= i < k :: IsDigit(s[i])
    ensures k < |s| ==> !IsDigit(s[k])
  {
    if s == [] || !IsDigit(s[0]) then 0 else 1 + SpanDigits(s[1..])
  }

  function SpanPlain(s: string): (k: nat)
    ensures k <= |s|
    ensures forall i | 0 <= i < k :: IsPlain(s[i])
    ensures k < |s| ==> !IsPlain(s[k])
  {
    if s == [] || !IsPlain(s[0]) then 0 else 1 + SpanPlain(s[1..])
  }

  // ---------------------------------------------------------------- numbers

  function Digit(d: nat): char
    requires d < 10
  {
    '0' + d as char
  }

  function NatText(n: nat): (s: string)
    ensures s != [] && AllDigits(s)
    ensures n > 0 ==> s[0] != '0'
    ensures n == 0 ==> s == "0"
  {
    if n < 10 then [Digit(n)] else NatText(n / 10) + [Digit(n % 10)]
  }

  /** `%d` and `PRIu64` of the C formats. */
  function IntText(n: int): string {
    if n < 0 then "-" + NatText(-n) else NatText(n)
  }

  predicate AllDigits(s: string) {
    forall i | 0 <= i < |s| :: IsDigit(s[i])
  }

  function DigitsValue(s: string): nat
    requires AllDigits(s)
  {
    if s == [] then 0
    else
      assert IsDigit(s[|s| - 1]);
      DigitsValue(s[..|s| - 1]) * 10 + (s[|s| - 1] as int - '0' as int)
  }

  lemma {:induction false} DigitsValueOfNatText(n: nat)
    ensures DigitsValue(NatText(n)) == n
  {
    var s := NatText(n);
    if n < 10 {
      assert s[..0] == [];
      assert DigitsValue([]) == 0;
    } else {
      assert s[..|s| - 1] == NatText(n / 10);
      DigitsValueOfNatText(n / 10);
    }
  }

  /** Numbers are written in decimal, the most significant digit first. */
  lemma NumbersAreDecimal(n: nat, d: nat)
    requires d < 10
    ensures NatText(10 * n + d) == (if n == 0 then "" else NatText(n)) + ["0123456789"[d]]
  {
    assert (10 * n + d) / 10 == n && (10 * n + d) % 10 == d;
    assert Digit(d) == "0123456789"[d];
    if n == 0 {
      assert "" + [Digit(d)] == [Digit(d)];
    }
  }

  // ---------------------------------------------------------------- lexing

  /** What the head of a nonempty text is: how many characters, and the token they make, if any. */
  datatype Lexeme = Bad | Lexeme(len: nat, tokens: seq<Token>)

  function FirstLexeme(s: string): (l: Lexeme)
    requires s != []
    ensures l.Lexeme? ==> 0 < l.len <= |s|
  {
    if IsSpace(s[0]) then Lexeme(1, [])
    else if Punctuation(s[0]) != [] then Lexeme(1, Punctuation(s[0]))
    else if s[0] == '"' then StringLexeme(s[1..])
    else NumberLexeme(s)
  }

  /** `s` is what follows the opening quote. */
  function StringLexeme(s: string): (l: Lexeme)
    ensures l.Lexeme? ==> 0 < l.len <= |s| + 1
  {
    var k := SpanPlain(s);
    if k < |s| && s[k] == '"' then Lexeme(k + 2, [TStr(s[..k])]) else Bad
  }

  function NumberLexeme(s: string): (l: Lexeme)
    requires s != []
    ensures l.Lexeme? ==> 0 < l.len <= |s|
  {
    if s[0] == '-' then
      match DigitsLexeme(s[1..])
      case None => Bad
      case Some((len, v)) => Lexeme(1 + len, [TNum(-v)])
    else
      match DigitsLexeme(s)
      case None => Bad
      case Some((len, v)) => Lexeme(len, [TNum(v)])
  }

  /** A run of digits without superfluous leading zeros: its length and its value. */
  function DigitsLexeme(s: string): (r: Option<(nat, int)>)
    ensures r.Some? ==> 0 < r.value.0 <= |s|
  {
    var k := SpanDigits(s);
    if k == 0 || (k > 1 && s[0] == '0') then None
    else
      assert AllDigits(s[..k]);
      Some((k, DigitsValue(s[..k])))
  }

  function Lex(s: string): Option<seq<Token>>
    decreases |s|
  {
    if s == [] then Some([])
    else
      match FirstLexeme(s)
      case Bad => None
      case Lexeme(len, tokens) =>
        match Lex(s[len..])
        case None => None
        case Some(rest) => Some(tokens + rest)
  }

  /** `a` followed by `b` reads as two pieces: a number at the end of `a` does not run into `b`. */
  predicate Separated(a: string, b: string) {
    a == [] || b == [] || !IsDigit(b[0]) || (!IsDigit(a[|a| - 1]) && a[|a| - 1] != '-')
  }

  lemma {:induction false} SpanDigitsConcat(a: string, b: string)
    requires SpanDigits(a) < |a| || b == [] || !IsDigit(b[0])
    ensures SpanDigits(a + b) == SpanDigits(a)
  {
    if a == [] {
      assert a + b == b;
    } else if IsDigit(a[0]) {
      assert (a + b)[1..] == a[1..] + b;
      SpanDigitsConcat(a[1..], b);
    }
  }

  lemma {:induction false} SpanPlainConcat(a: string, b: string)
    requires SpanPlain(a) < |a|
    ensures SpanPlain(a + b) == SpanPlain(a)
  {
    if IsPlain(a[0]) {
      assert (a + b)[1..] == a[1..] + b;
      SpanPlainConcat(a[1..], b);
    }
  }

  lemma DigitsLexemeConcat(a: string, b: string)
    requires SpanDigits(a) < |a| || b == [] || !IsDigit(b[0])
    requires DigitsLexeme(a).Some?
    ensures DigitsLexeme(a + b) == DigitsLexeme(a)
  {
    SpanDigitsConcat(a, b);
    assert (a + b)[..SpanDigits(a)] == a[..SpanDigits(a)];
  }

  lemma StringLexemeConcat(a: string, b: string)
    requires StringLexeme(a).Lexeme?
    ensures StringLexeme(a + b) == StringLexeme(a)
  {
    SpanPlainConcat(a, b);
    assert (a + b)[..SpanPlain(a)] == a[..SpanPlain(a)];
  }

  lemma NumberLexemeConcat(a: string, b: string)
    requires a != [] && NumberLexeme(a).Lexeme? && Separated(a, b)
    ensures NumberLexeme(a + b) == NumberLexeme(a)
  {
    var d := if a[0] == '-' then a[1..] else a;
    assert a[0] == '-' ==> (a + b)[1..] == d + b;
    assert d != [] && d[|d| - 1] == a[|a| - 1];
    DigitsLexemeConcat(d, b);
  }

  lemma FirstLexemeConcat(a: string, b: string)
    requires a != [] && FirstLexeme(a).Lexeme? && Separated(a, b)
    ensures FirstLexeme(a + b) == FirstLexeme(a)
  {
    if IsSpace(a[0]) || Punctuation(a[0]) != [] {
    } else if a[0] == '"' {
      assert (a + b)[1..] == a[1..] + b;
      StringLexemeConcat(a[1..], b);
    } else {
      NumberLexemeConcat(a, b);
    }
  }

  lemma LexUnfold(s: string, rest: string, tokens: seq<Token>)
    requires s != [] && FirstLexeme(s).Lexeme?
    requires rest == s[FirstLexeme(s).len..] && Lex(rest) == Some(tokens)
    ensures Lex(s) == Some(FirstLexeme(s).tokens + tokens)
  {
  }

  lemma SeparatedRest(a: string, b: string, k: nat)
    requires Separated(a, b) && k <= |a|
    ensures Separated(a[k..], b)
  {
  }

  /** Lexing distributes over concatenation at every separated boundary. */
  lemma {:induction false} LexConcat(a: string, b: string)
    requires Lex(a).Some? && Lex(b).Some? && Separated(a, b)
    ensures Lex(a + b) == Some(Lex(a).value + Lex(b).value)
    decreases |a|
  {
    var tb := Lex(b).value;
    if a == [] {
      assert a + b == b;
      assert [] + tb == tb;
    } else {
      FirstLexemeConcat(a, b);
      var l := FirstLexeme(a);
      var rest := a[l.len..];
      SeparatedRest(a, b, l.len);
      LexConcat(rest, b);
      var ta := Lex(rest).value;
      DropConcat(a, b, l.len);
      LexUnfold(a, rest, ta);
      LexUnfold(a + b, rest + b, ta + tb);
      ConcatAssociative(l.tokens, ta, tb);
    }
  }

  /** The tokens of a text of white space and punctuation. */
  function Marks(s: string): seq<Token> {
    if s == [] then [] else Punctuation(s[0]) + Marks(s[1..])
  }

  predicate AllMarks(s: string) {
    forall i | 0 <= i < |s| :: IsSpace(s[i]) || Punctuation(s[i]) != []
  }

  lemma {:induction false} LexMarks(s: string)
    requires AllMarks(s)
    ensures Lex(s) == Some(Marks(s))
  {
    if s != [] {
      LexMarks(s[1..]);
      LexUnfold(s, s[1..], Marks(s[1..]));
      assert IsSpace(s[0]) ==> Punctuation(s[0]) == [];
    }
  }

  function MarkAt(s: string, i: nat): seq<Token> {
    if i < |s| then Punctuation(s[i]) else []
  }

  /** Short texts of marks, spelled out. */
  lemma LexShortMarks(s: string, ts: seq<Token>)
    requires AllMarks(s) && |s| <= 5
    requires ts == MarkAt(s, 0) + MarkAt(s, 1) + MarkAt(s, 2) + MarkAt(s, 3) + MarkAt(s, 4)
    ensures Lex(s) == Some(ts)
  {
    LexMarks(s);
    ShortMarks(s);
  }

  lemma {:induction false} ShortMarks(s: string)
    requires |s| <= 5
    ensures Marks(s) == MarkAt(s, 0) + MarkAt(s, 1) + MarkAt(s, 2) + MarkAt(s, 3) + MarkAt(s, 4)
  {
    if s != [] {
      ShortMarks(s[1..]);
      var t := s[1..];
      assert MarkAt(t, 0) == MarkAt(s, 1) && MarkAt(t, 1) == MarkAt(s, 2)
          && MarkAt(t, 2) == MarkAt(s, 3) && MarkAt(t, 3) == MarkAt(s, 4) && MarkAt(t, 4) == [];
    }
  }

  /** A text that lexes holds no NUL, so as a C string it ends where the text ends. */
  lemma {:induction false} LexHasNoNul(s: string, i: nat)
    requires Lex(s).Some? && i < |s|
    ensures s[i] != '\0'
    decreases |s|
  {
    var l := FirstLexeme(s);
    if l.len <= i {
      LexHasNoNul(s[l.len..], i - l.len);
    } else if IsSpace(s[0]) || Punctuation(s[0]) != [] {
    } else if s[0] == '"' {
      assert 0 < i < l.len - 1 ==> s[i] == s[1..][i - 1];
    } else if s[0] == '-' {
      assert 0 < i ==> s[i] == s[1..][i - 1];
    }
  }

  function Quoted(s: string): string {
    "\"" + s + "\""
  }

  lemma {:induction false} SpanPlainOfPlainText(s: string, tail: string)
    requires PlainText(s) && tail != [] && !IsPlain(tail[0])
    ensures SpanPlain(s + tail) == |s|
  {
    if s == [] {
      assert s + tail == tail;
    } else {
      assert (s + tail)[1..] == s[1..] + tail;
      SpanPlainOfPlainText(s[1..], tail);
    }
  }

  lemma LexQuoted(s: string)
    requires PlainText(s)
    ensures Lex(Quoted(s)) == Some([TStr(s)])
  {
    var q := Quoted(s);
    assert q[1..] == s + "\"";
    SpanPlainOfPlainText(s, "\"");
    assert (s + "\"")[..|s|] == s;
    assert FirstLexeme(q) == Lexeme(|q|, [TStr(s)]);
    LexOneLexeme(q);
  }

  lemma LexOneLexeme(s: string)
    requires s != [] && FirstLexeme(s).Lexeme? && FirstLexeme(s).len == |s|
    ensures Lex(s) == Some(FirstLexeme(s).tokens)
  {
    assert s[|s|..] == [];
    assert Lex(s[|s|..]) == Some([]);
    assert FirstLexeme(s).tokens + [] == FirstLexeme(s).tokens;
  }

  lemma {:induction false} SpanDigitsOfDigits(s: string)
    requires AllDigits(s)
    ensures SpanDigits(s) == |s|
  {
    if s != [] {
      SpanDigitsOfDigits(s[1..]);
    }
  }

  lemma DigitsLexemeOfNatText(n: nat)
    ensures DigitsLexeme(NatText(n)) == Some((|NatText(n)|, n))
  {
    var d := NatText(n);
    SpanDigitsOfDigits(d);
    DigitsValueOfNatText(n);
    assert d[..|d|] == d;
  }

  lemma LexInt(n: int)
    ensures Lex(IntText(n)) == Some([TNum(n)])
    ensures IntText(n) != [] && IsDigit(IntText(n)[|IntText(n)| - 1])
  {
    var t := IntText(n);
    if n < 0 {
      DigitsLexemeOfNatText(-n);
      assert t[1..] == NatText(-n);
      assert t[|t| - 1] == NatText(-n)[|t| - 2];
    } else {
      DigitsLexemeOfNatText(n);
      assert IsDigit(t[0]);
    }
    assert FirstLexeme(t) == Lexeme(|t|, [TNum(n)]);
    LexOneLexeme(t);
  }

  // ---------------------------------------------------------------- reading values

  datatype Read<+T> = Fail | Read(value: T, rest: seq<Token>)

  function Value(ts: seq<Token>): (r: Read<Json>)
    ensures r.Read? ==> |r.rest| < |ts|
    decreases |ts|, 0
  {
    if ts == [] then Fail
    else
      match ts[0]
      case TNum(n) => Read(Num(n), ts[1..])
      case TStr(s) => Read(Str(s), ts[1..])
      case LBracket =>
        if |ts| > 1 && ts[1] == RBracket then Read(Arr([]), ts[2..])
        else
          (match Items(ts[1..])
           case Fail => Fail
           case Read(items, rest) => Read(Arr(items), rest))
      case LBrace =>
        if |ts| > 1 && ts[1] == RBrace then Read(Obj([]), ts[2..])
        else
          (match Members(ts[1..])
           case Fail => Fail
           case Read(members, rest) => Read(Obj(members), rest))
      case _ => Fail
  }

  /** One or more values separated by commas, up to and including the closing bracket. */
  function Items(ts: seq<Token>): (r: Read<seq<Json>>)
    ensures r.Read? ==> |r.rest| < |ts|
    decreases |ts|, 1
  {
    match Value(ts)
    case Fail => Fail
    case Read(v, rest) =>
      if rest == [] then Fail
      else if rest[0] == RBracket then Read([v], rest[1..])
      else if rest[0] == Comma then
        (match Items(rest[1..])
         case Fail => Fail
         case Read(vs, rest') => Read([v] + vs, rest'))
      else Fail
  }

  function Members(ts: seq<Token>): (r: Read<seq<Member>>)
    ensures r.Read? ==> |r.rest| < |ts|
    decreases |ts|, 1
  {
    if |ts| < 2 || !ts[0].TStr? || ts[1] != Colon then Fail
    else
      match Value(ts[2..])
      case Fail => Fail
      case Read(v, rest) =>
        var m := Member(ts[0].s, v);
        if rest == [] then Fail
        else if rest[0] == RBrace then Read([m], rest[1..])
        else if rest[0] == Comma then
          (match Members(rest[1..])
           case Fail => Fail
           case Read(ms, rest') => Read([m] + ms, rest'))
        else Fail
  }

  /** The value a whole text stands for, if it is one JSON text. */
  function Parse(text: string): Option<Json> {
    match Lex(text)
    case None => None
    case Some(ts) =>
      match Value(ts)
      case Fail => None
      case Read(v, rest) => if rest == [] then Some(v) else None
  }

  // ---------------------------------------------------------------- tokens of a value

  function Tokens(j: Json): seq<Token>
    decreases j, 0
  {
    match j
    case Num(n) => [TNum(n)]
    case Str(s) => [TStr(s)]
    case Arr(items) => [LBracket] + ItemTokens(items) + [RBracket]
    case Obj(members) => [LBrace] + MemberTokens(members) + [RBrace]
  }

  function ItemTokens(items: seq<Json>): seq<Token>
    decreases items, 1
  {
    if items == [] then []
    else if |items| == 1 then Tokens(items[0])
    else Tokens(items[0]) + [Comma] + ItemTokens(items[1..])
  }

  function MemberTokens(members: seq<Member>): seq<Token>
    decreases members, 1
  {
    if members == [] then []
    else
      var first := [TStr(members[0].key), Colon] + Tokens(members[0].value);
      if |members| == 1 then first else first + [Comma] + MemberTokens(members[1..])
  }

  lemma FirstTokenOfValue(j: Json)
    ensures Tokens(j) != [] && Tokens(j)[0] != RBracket && Tokens(j)[0] != RBrace
  {
  }

  lemma EmptyListTokens(open: Token, close: Token, rest: seq<Token>)
    ensures ([open] + [] + [close] + rest)[2..] == rest && |[open] + [] + [close] + rest| == |rest| + 2
    ensures ([open] + [] + [close] + rest)[0] == open && ([open] + [] + [close] + rest)[1] == close
  {
  }

  lemma ListTokens(open: Token, list: seq<Token>, close: Token, rest: seq<Token>)
    requires list != []
    ensures ([open] + list + [close] + rest)[1..] == list + ([close] + rest)
    ensures ([open] + list + [close] + rest)[0] == open && ([open] + list + [close] + rest)[1] == list[0]
  {
  }

  lemma FirstTokenOfList(items: seq<Json>, members: seq<Member>)
    ensures items != [] ==> ItemTokens(items) != [] && ItemTokens(items)[0] != RBracket
    ensures members != [] ==> MemberTokens(members) != [] && MemberTokens(members)[0] != RBrace
  {
    if items != [] {
      FirstTokenOfValue(items[0]);
    }
  }

  /** Reading inverts printing, whatever follows. */
  lemma {:induction false} ValueOfTokens(j: Json, rest: seq<Token>)
    ensures Value(Tokens(j) + rest) == Read(j, rest)
    decreases j, 0
  {
    match j
    case Num(n) =>
      DropPrefix([TNum(n)], rest);
    case Str(s) =>
      DropPrefix([TStr(s)], rest);
    case Arr(items) =>
      hide ItemTokens, Items, Members;
      if items == [] {
        EmptyListTokens(LBracket, RBracket, rest);
        assert ItemTokens([]) == [] by { NoTokens(); }
      } else {
        FirstTokenOfList(items, []);
        ListTokens(LBracket, ItemTokens(items), RBracket, rest);
        ItemsOfTokens(items, rest);
      }
    case Obj(members) =>
      hide MemberTokens, Items, Members;
      if members == [] {
        EmptyListTokens(LBrace, RBrace, rest);
        assert MemberTokens([]) == [] by { NoTokens(); }
      } else {
        FirstTokenOfList([], members);
        ListTokens(LBrace, MemberTokens(members), RBrace, rest);
        MembersOfTokens(members, rest);
      }
  }

  lemma NoTokens()
    ensures ItemTokens([]) == [] && MemberTokens([]) == []
  {
  }

  lemma {:induction false} ItemsOfTokens(items: seq<Json>, rest: seq<Token>)
    requires items != []
    ensures Items(ItemTokens(items) + ([RBracket] + rest)) == Read(items, rest)
    decreases items, 1
  {
    hide Value, Tokens;
    var ts := ItemTokens(items) + ([RBracket] + rest);
    if |items| == 1 {
      ValueOfTokens(items[0], [RBracket] + rest);
      assert ([RBracket] + rest)[1..] == rest;
      assert [items[0]] == items;
    } else {
      var more := ItemTokens(items[1..]) + ([RBracket] + rest);
      assert ts == Tokens(items[0]) + ([Comma] + more);
      ValueOfTokens(items[0], [Comma] + more);
      assert ([Comma] + more)[1..] == more;
      ItemsOfTokens(items[1..], rest);
      assert [items[0]] + items[1..] == items;
    }
  }

  /** What follows the first member's value: the closing brace, or a comma and the other members. */
  function AfterFirstMember(members: seq<Member>, rest: seq<Token>): seq<Token>
    requires members != []
  {
    if |members| == 1 then [RBrace] + rest
    else [Comma] + (MemberTokens(members[1..]) + ([RBrace] + rest))
  }

  lemma FirstMemberTokens(members: seq<Member>, rest: seq<Token>)
    requires members != []
    ensures MemberTokens(members) + ([RBrace] + rest)
         == [TStr(members[0].key), Colon] + (Tokens(members[0].value) + AfterFirstMember(members, rest))
  {
  }

  lemma {:induction false} MembersOfTokens(members: seq<Member>, rest: seq<Token>)
    requires members != []
    ensures Members(MemberTokens(members) + ([RBrace] + rest)) == Read(members, rest)
    decreases members, 1
  {
    var m, more := members[0], AfterFirstMember(members, rest);
    FirstMemberTokens(members, rest);
    DropPrefix([TStr(m.key), Colon], Tokens(m.value) + more);
    ValueOfTokens(m.value, more);
    if |members| == 1 {
      DropPrefix([RBrace], rest);
      assert [m] == members;
    } else {
      DropPrefix([Comma], MemberTokens(members[1..]) + ([RBrace] + rest));
      MembersOfTokens(members[1..], rest);
      assert [m] + members[1..] == members;
    }
  }

  /** A text whose tokens are those of `j` parses as `j`. */
  lemma ParseOfTokens(text: string, j: Json)
    requires Lex(text) == Some(Tokens(j))
    ensures Parse(text) == Some(j)
  {
    ValueOfTokens(j, []);
    assert Tokens(j) + [] == Tokens(j);
  }

  // ---------------------------------------------------------------- lists that grow at the end

  lemma {:induction false} ItemTokensSnoc(items: seq<Json>, last: Json)
    ensures ItemTokens(items + [last]) == (if items == [] then [] else ItemTokens(items) + [Comma]) + Tokens(last)
  {
    if items != [] {
      assert (items + [last])[1..] == items[1..] + [last];
      ItemTokensSnoc(items[1..], last);
    }
  }

  /** The members in order, each followed by a comma. */
  function ListedMembers(members: seq<Member>): seq<Token> {
    if members == [] then []
    else
      var last := members[|members| - 1];
      ListedMembers(members[..|members| - 1]) + ([TStr(last.key), Colon] + Tokens(last.value) + [Comma])
  }

  lemma {:induction false} MemberTokensSnoc(members: seq<Member>, last: Member)
    ensures MemberTokens(members + [last])
         == (if members == [] then [] else MemberTokens(members) + [Comma])
            + ([TStr(last.key), Colon] + Tokens(last.value))
  {
    if members != [] {
      assert (members + [last])[1..] == members[1..] + [last];
      MemberTokensSnoc(members[1..], last);
    }
  }

  lemma ListedMembersSnoc(init: seq<Member>, last: Member)
    ensures ListedMembers(init + [last])
         == ListedMembers(init) + ([TStr(last.key), Colon] + Tokens(last.value) + [Comma])
  {
    hide Tokens;
    assert (init + [last])[..|init|] == init;
  }

  lemma {:induction false} ListedIsMemberTokens(members: seq<Member>)
    ensures ListedMembers(members) == if members == [] then [] else MemberTokens(members) + [Comma]
  {
    if members == [] {
      assert ListedMembers(members) == [];
    }
    hide *;
    if members != [] {
      var init, last := members[..|members| - 1], members[|members| - 1];
      assert members == init + [last];
      ListedIsMemberTokens(init);
      ListedMembersSnoc(init, last);
      MemberTokensSnoc(init, last);
      var t := [TStr(last.key), Colon] + Tokens(last.value);
      if init == [] {
        assert [] + (t + [Comma]) == ([] + t) + [Comma];
      } else {
        ConcatAssociative(MemberTokens(init) + [Comma], t, [Comma]);
      }
    }
  }

  /** Members that go wrong after a comma go wrong altogether. */
  lemma {:induction false} MembersFailLater(members: seq<Member>, bad: seq<Token>)
    requires members != [] && Members(bad) == Fail
    ensures Members(MemberTokens(members) + ([Comma] + bad)) == Fail
  {
    var m := members[0];
    var more := if |members| == 1 then bad else MemberTokens(members[1..]) + ([Comma] + bad);
    FailingTail(members, bad);
    DropPrefix([TStr(m.key), Colon], Tokens(m.value) + ([Comma] + more));
    ValueOfTokens(m.value, [Comma] + more);
    DropPrefix([Comma], more);
    if |members| > 1 {
      MembersFailLater(members[1..], bad);
    }
  }

  lemma FailingTail(members: seq<Member>, bad: seq<Token>)
    requires members != []
    ensures MemberTokens(members) + ([Comma] + bad)
         == [TStr(members[0].key), Colon] + (Tokens(members[0].value) + ([Comma] +
              (if |members| == 1 then bad else MemberTokens(members[1..]) + ([Comma] + bad))))
  {
  }
}
