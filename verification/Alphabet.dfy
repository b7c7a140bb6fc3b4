/** Crockford's base32 alphabet and the forgiving lexer of recovery.rs. */
module Alphabet {
  import opened Bytes

  const CROCKFORD: string := "0123456789ABCDEFGHJKMNPQRSTVWXYZ"

  type symbol = v: nat | v < 32
  type symbols = seq<symbol>

  /** The symbol's character code: runs of the ASCII range with I, L, O and U left out. */
  function Code(v: symbol): int {
    if v < 10 then 48 + v else if v < 18 then 55 + v else if v < 20 then 56 + v
    else if v < 22 then 57 + v else if v < 27 then 58 + v else 59 + v
  }

  lemma AlphabetAt(v: symbol)
    ensures |CROCKFORD| == 32 && CROCKFORD[v] as int == Code(v)
  {
  }

  function Print(vals: symbols): string {
    seq(|vals|, i requires 0 <= i < |vals| => CROCKFORD[vals[i]])
  }

  lemma PrintInjective(a: symbols, b: symbols)
    requires Print(a) == Print(b)
    ensures a == b
  {
    assert |a| == |Print(a)| == |b|;
    forall i | 0 <= i < |a| ensures a[i] == b[i] {
      assert Print(a)[i] == Print(b)[i];
      AlphabetAt(a[i]);
      AlphabetAt(b[i]);
    }
  }

  /** The alphabet position of a character code; no two positions share a code. */
  ghost function Position(code: int): (r: Option<symbol>)
    ensures r.Some? ==> Code(r.value) == code
    ensures r.None? ==> forall v: symbol :: Code(v) != code
  {
    if exists v: symbol :: Code(v) == code then
      var v: symbol :| Code(v) == code;
      Some(v)
    else None
  }

  lemma PositionOfCode(v: symbol)
    ensures Position(Code(v)) == Some(v)
  {
  }

  /** The search as the source runs it: the first position whose byte matches. */
  method FindPosition(code: int) returns (r: Option<symbol>)
    ensures r == Position(code)
  {
    var i := 0;
    while i < 32
      invariant 0 <= i <= 32
      invariant forall v: symbol :: v < i ==> Code(v) != code
    {
      AlphabetAt(i);
      if CROCKFORD[i] as int == code {
        PositionOfCode(i);
        return Some(i);
      }
      i := i + 1;
    }
    return None;
  }

  function ToAsciiUppercase(c: char): char {
    if 'a' <= c <= 'z' then (c as int - 32) as char else c
  }

  datatype Lexeme = Skip | Bad | Symbol(value: symbol)

  /** What the parser makes of one character. The comparison truncates it to a byte. */
  ghost function Lex(c: char): Lexeme {
    var u := ToAsciiUppercase(c);
    if u == '-' || u == ' ' then Skip
    else
      var d := if u == 'I' || u == 'L' then '1' else if u == 'O' then '0' else u;
      match Position(d as int % 256)
      case None => Bad
      case Some(v) => Symbol(v)
  }

  /** The character a symbol value reads back from. */
  function CharOf(v: symbol): char {
    Code(v) as char
  }

  lemma LexPrinted(v: symbol)
    ensures Lex(CharOf(v)) == Symbol(v)
  {
  }

  /** For ASCII input the accepted characters are the alphabet in either case and the three
      ambiguous letters. */
  lemma AcceptedAscii(c: char)
    requires c as int < 128
    ensures var u := ToAsciiUppercase(c);
            Lex(c).Symbol? <==> u in "ILO" || exists v: symbol :: CharOf(v) == u
  {
    var u := ToAsciiUppercase(c);
    PositionOfCode(1);
    PositionOfCode(0);
    if Lex(c).Symbol? && u !in "ILO" {
      assert CharOf(Lex(c).value) == u;
    }
    if v: symbol :| CharOf(v) == u {
      LexPrinted(v);
    }
  }

  /** Beyond ASCII only the low byte of the code point is compared. */
  lemma AcceptedBeyondAscii(c: char)
    requires c as int >= 128
    ensures Lex(c).Symbol? <==> exists v: symbol :: Code(v) == c as int % 256
    ensures Lex('\U{0130}') == Symbol(0)
  {
    PositionOfCode(0);
  }

  /** The symbols of a typed code, or None at the first character outside the alphabet. */
  ghost function Normalize(s: string): Option<symbols> {
    if s == "" then Some([]) else Extend(Normalize(s[..|s| - 1]), Lex(s[|s| - 1]))
  }

  function Extend(front: Option<symbols>, x: Lexeme): Option<symbols> {
    if front.None? || x.Bad? then None
    else if x.Skip? then front
    else Some(front.value + [x.value])
  }

  function Append(a: Option<symbols>, b: Option<symbols>): Option<symbols> {
    if a.None? || b.None? then None else Some(a.value + b.value)
  }

  lemma AppendExtend(a: Option<symbols>, b: Option<symbols>, x: Lexeme)
    ensures Append(a, Extend(b, x)) == Extend(Append(a, b), x)
  {
    if a.Some? && b.Some? && x.Symbol? {
      assert a.value + (b.value + [x.value]) == a.value + b.value + [x.value];
    }
  }

  lemma {:induction false} NormalizeConcat(a: string, b: string)
    ensures Normalize(a + b) == Append(Normalize(a), Normalize(b))
  {
    if b == "" {
      assert a + b == a;
      if Normalize(a).Some? {
        assert Normalize(a).value + [] == Normalize(a).value;
      }
    } else {
      var s, b', x := a + b, b[..|b| - 1], Lex(b[|b| - 1]);
      NormalizeConcat(a, b');
      assert s[..|s| - 1] == a + b' && s[|s| - 1] == b[|b| - 1];
      AppendExtend(Normalize(a), Normalize(b'), x);
    }
  }

  lemma NormalizeOne(c: char)
    ensures Normalize([c]) == Extend(Some([]), Lex(c))
  {
  }

  lemma PrintSnoc(vals: symbols, v: symbol)
    ensures Print(vals + [v]) == Print(vals) + [CharOf(v)]
  {
  }

  lemma {:induction false} NormalizePrinted(vals: symbols)
    ensures Normalize(Print(vals)) == Some(vals)
  {
    if vals == [] {
    } else {
      var front, v := vals[..|vals| - 1], vals[|vals| - 1];
      NormalizePrinted(front);
      assert vals == front + [v];
      PrintSnoc(front, v);
      LexPrinted(v);
      NormalizeOne(CharOf(v));
      NormalizeConcat(Print(front), [CharOf(v)]);
    }
  }

  // ----- what each character means, told by the characters -----

  /** The alphabet is the digits and then the capital letters but I, L, O and U, in order. */
  lemma AlphabetInOrder()
    ensures |CROCKFORD| == 32 && forall v, w :: 0 <= v < w < 32 ==> CROCKFORD[v] < CROCKFORD[w]
    ensures forall c :: c in CROCKFORD <==> '0' <= c <= '9' || ('A' <= c <= 'Z' && c !in {'I', 'L', 'O', 'U'})
  {
    forall v, w | 0 <= v < w < 32 ensures CROCKFORD[v] < CROCKFORD[w] {
      AlphabetAt(v);
      AlphabetAt(w);
    }
    AlphabetAt(0);
    forall c ensures c in CROCKFORD <==> '0' <= c <= '9' || ('A' <= c <= 'Z' && c !in {'I', 'L', 'O', 'U'}) {
      InAlphabet(c);
    }
  }

  lemma InAlphabet(c: char)
    ensures c in CROCKFORD <==> '0' <= c <= '9' || ('A' <= c <= 'Z' && c !in {'I', 'L', 'O', 'U'})
  {
    AlphabetAt(0);
    if c in CROCKFORD {
      var v :| 0 <= v < |CROCKFORD| && CROCKFORD[v] == c;
      AlphabetAt(v);
    }
    if '0' <= c <= '9' || ('A' <= c <= 'Z' && c !in {'I', 'L', 'O', 'U'}) {
      var n := c as int;
      var v := if c <= '9' then n - 48 else if c < 'I' then n - 55 else if c < 'L' then n - 56
               else if c < 'O' then n - 57 else if c < 'U' then n - 58 else n - 59;
      AlphabetAt(v);
    }
  }

  /** The byte a character is compared as, after ASCII letters are made capital. */
  function Seen(c: char): char {
    if 'a' <= c <= 'z' then (c as int - 32) as char else (c as int % 256) as char
  }

  predicate IsNoise(c: char) { c == '-' || c == ' ' }

  predicate OneLike(c: char) { c in {'I', 'L', 'i', 'l'} }

  predicate ZeroLike(c: char) { c in {'O', 'o'} }

  lemma LexNoise(c: char)
    ensures IsNoise(c) ==> Lex(c) == Skip
    ensures OneLike(c) ==> Lex(c) == Symbol(1)
    ensures ZeroLike(c) ==> Lex(c) == Symbol(0)
  {
    hide Position;
    PositionOfCode(1);
    PositionOfCode(0);
  }

  lemma LexOther(c: char)
    requires !IsNoise(c) && !OneLike(c) && !ZeroLike(c)
    ensures Lex(c) == match Position(Seen(c) as int) { case None => Bad case Some(v) => Symbol(v) }
  {
    hide Position;
  }

  lemma SeenPosition(c: char)
    ensures c !in CROCKFORD ==> Position(c as int) == None
    ensures forall v: symbol :: v < |CROCKFORD| && CROCKFORD[v] == c ==> Position(c as int) == Some(v)
  {
    AlphabetAt(0);
    if Position(c as int).Some? {
      var v := Position(c as int).value;
      AlphabetAt(v);
      assert CROCKFORD[v] in CROCKFORD;
    }
    forall v: symbol | v < |CROCKFORD| && CROCKFORD[v] == c ensures Position(c as int) == Some(v) {
      AlphabetAt(v);
      PositionOfCode(v);
    }
  }

  lemma OneSymbol(c: char)
    ensures Normalize([c])
            == match Lex(c) { case Skip => Some([]) case Bad => None case Symbol(v) => Some([v]) }
  {
    hide Lex, Normalize;
    NormalizeOne(c);
    if Lex(c).Symbol? {
      assert [] + [Lex(c).value] == [Lex(c).value];
    }
  }

  /** Noise is dropped, look-alikes are digits, and any other character is the symbol its byte stands at
      in the alphabet; if it stands nowhere the text is refused. */
  lemma CharacterMeaning(c: char)
    ensures IsNoise(c) ==> Normalize([c]) == Some([])
    ensures OneLike(c) ==> Normalize([c]) == Some([1])
    ensures ZeroLike(c) ==> Normalize([c]) == Some([0])
    ensures !IsNoise(c) && !OneLike(c) && !ZeroLike(c) ==>
              && (Seen(c) !in CROCKFORD ==> Normalize([c]) == None)
              && (forall v: symbol :: v < |CROCKFORD| && CROCKFORD[v] == Seen(c) ==> Normalize([c]) == Some([v]))
  {
    hide Normalize, Lex, Position, IsNoise, OneLike, ZeroLike, Seen;
    OneSymbol(c);
    LexNoise(c);
    if !IsNoise(c) && !OneLike(c) && !ZeroLike(c) {
      LexOther(c);
      SeenPosition(Seen(c));
    }
  }

  /** Neither noise nor a look-alike nor, by its byte, in the alphabet. */
  predicate IsForeign(c: char) {
    !IsNoise(c) && !OneLike(c) && !ZeroLike(c) && Seen(c) !in CROCKFORD
  }

  /** A text is refused exactly when some character of it is foreign. */
  lemma {:induction false} RefusedIffForeign(s: string)
    ensures Normalize(s) == None <==> exists i :: 0 <= i < |s| && IsForeign(s[i])
  {
    if s == "" {
    } else {
      var front, c := s[..|s| - 1], s[|s| - 1];
      RefusedIffForeign(front);
      NormalizeConcat(front, [c]);
      assert s == front + [c];
      CharacterMeaning(c);
      if i :| 0 <= i < |front| && IsForeign(front[i]) {
        assert s[i] == front[i];
      }
      if !IsForeign(c) && Seen(c) in CROCKFORD && !IsNoise(c) && !OneLike(c) && !ZeroLike(c) {
        var v :| 0 <= v < |CROCKFORD| && CROCKFORD[v] == Seen(c);
        AlphabetAt(0);
      }
    }
  }

  /** One keystroke of formatting noise: a separator more, or a character for one read alike. */
  ghost predicate OneEdit(s: string, t: string) {
    exists a: string, b: string, x: char, y: char :: EditAt(s, t, a, b, x, y)
  }

  ghost predicate EditAt(s: string, t: string, a: string, b: string, x: char, y: char) {
    || ((x == '-' || x == ' ') && s == a + b && t == a + [x] + b)
    || (s == a + [x] + b && t == a + [y] + b && ReadAlike(x, y))
  }

  /** Same letter up to ASCII case, or both read as 1, or both read as 0. */
  predicate ReadAlike(x: char, y: char) {
    var u, v := ToAsciiUppercase(x), ToAsciiUppercase(y);
    u == v || (u in "1IL" && v in "1IL") || (u in "0O" && v in "0O")
  }

  lemma ReadAlikeLexAlike(x: char, y: char)
    requires ReadAlike(x, y)
    ensures Lex(x) == Lex(y)
  {
  }

  lemma EditKeepsSymbols(s: string, t: string)
    requires OneEdit(s, t)
    ensures Normalize(s) == Normalize(t)
  {
    var a, b, x, y :| EditAt(s, t, a, b, x, y);
    NormalizeOne(x);
    NormalizeConcat(a, [x]);
    NormalizeConcat(a + [x], b);
    NormalizeConcat(a, b);
    if s != a + b {
      ReadAlikeLexAlike(x, y);
      NormalizeOne(y);
      NormalizeConcat(a, [y]);
      NormalizeConcat(a + [y], b);
    }
  }
}
