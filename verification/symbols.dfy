/**
 * The comma-separated symbol list of a query string, as the API endpoints read it:
 * `[s.strip().upper() for s in csv.split(",") if s.strip()]`.
 */
module Symbols {

  type Symbol = string

  /** Python's `str.isspace()`: the characters `str.strip()` removes. */
  predicate IsSpace(c: char) {
    var k := c as int;
    || (9 <= k <= 13) || (28 <= k <= 32) || k == 0x85 || k == 0xA0 || k == 0x1680
    || (0x2000 <= k <= 0x200A) || k == 0x2028 || k == 0x2029 || k == 0x202F
    || k == 0x205F || k == 0x3000
  }

  predicate AllSpace(s: string) {
    forall i :: 0 <= i < |s| ==> IsSpace(s[i])
  }

  /** No whitespace at either end. */
  predicate IsTrimmed(s: string) {
    s == [] || (!IsSpace(s[0]) && !IsSpace(s[|s| - 1]))
  }

  predicate IsLowerAscii(c: char) {
    'a' <= c <= 'z'
  }

  predicate IsUpperCase(s: string) {
    forall i :: 0 <= i < |s| ==> !IsLowerAscii(s[i])
  }

  /** What every element of a parsed symbol list looks like. */
  predicate WellFormedSymbol(s: string) {
    s != [] && IsTrimmed(s) && IsUpperCase(s)
  }

  /** Drops leading whitespace: the result is a suffix of `s`, and what was dropped is whitespace. */
  function TrimLeft(s: string): (r: string)
    ensures |r| <= |s| && r == s[|s| - |r|..]
    ensures AllSpace(s[..|s| - |r|])
    ensures r == [] || !IsSpace(r[0])
  {
    if s != [] && IsSpace(s[0]) then
      var r := TrimLeft(s[1..]);
      assert s[..|s| - |r|] == [s[0]] + s[1..][..|s| - 1 - |r|];
      assert s[|s| - |r|..] == s[1..][|s| - 1 - |r|..];
      r
    else s
  }

  /** Drops trailing whitespace: the result is a prefix of `s`, and what was dropped is whitespace. */
  function TrimRight(s: string): (r: string)
    ensures |r| <= |s| && r == s[..|r|]
    ensures AllSpace(s[|r|..])
    ensures r == [] || !IsSpace(r[|r| - 1])
  {
    if s != [] && IsSpace(s[|s| - 1]) then TrimRight(s[..|s| - 1]) else s
  }

  /** Python's `str.strip()`: the slice of `s` left after dropping whitespace at both ends. */
  function Strip(s: string): (r: string)
    ensures IsTrimmed(r)
    ensures r == [] <==> AllSpace(s)
    ensures exists i, j :: 0 <= i <= j <= |s| && r == s[i..j] && AllSpace(s[..i]) && AllSpace(s[j..])
  {
    var t := TrimLeft(s);
    SliceBetween(s, t, TrimRight(t));
    TrimEnds(s);
    TrimEmpty(s);
    TrimRight(t)
  }

  /** A prefix `r` of a suffix `t` of `s`, with whitespace dropped on both sides. */
  lemma SliceBetween(s: string, t: string, r: string)
    requires |t| <= |s| && t == s[|s| - |t|..] && AllSpace(s[..|s| - |t|])
    requires |r| <= |t| && r == t[..|r|] && AllSpace(t[|r|..])
    ensures var i := |s| - |t|;
            i + |r| <= |s| && r == s[i..i + |r|] && AllSpace(s[..i]) && AllSpace(s[i + |r|..])
  {
    SuffixPrefix(s, t, r);
  }

  /** A prefix `r` of a suffix `t` of `s` is the slice of `s` where `t` starts. */
  lemma SuffixPrefix<T>(s: seq<T>, t: seq<T>, r: seq<T>)
    requires |t| <= |s| && t == s[|s| - |t|..] && |r| <= |t| && r == t[..|r|]
    ensures var i := |s| - |t|;
            i + |r| <= |s| && r == s[i..i + |r|] && s[i + |r|..] == t[|r|..]
  {
  }

  lemma TrimEnds(s: string)
    ensures IsTrimmed(TrimRight(TrimLeft(s)))
  {
    var t := TrimLeft(s);
    var r := TrimRight(t);
    if r != [] {
      assert r[0] == t[0];
    }
  }

  lemma TrimEmpty(s: string)
    ensures TrimRight(TrimLeft(s)) == [] <==> AllSpace(s)
  {
    var t := TrimLeft(s);
    var r := TrimRight(t);
    var i := |s| - |t|;
    if r == [] {
      assert t[|r|..] == t;
      assert s[i..] == t;
      AllSpaceJoin(s, i);
    }
  }

  /**
   * `Strip` is the only trimmed slice between whitespace-only ends: whichever such slice of `s`
   * one picks, it is `Strip(s)`.
   */
  lemma StripUnique(s: string, i: nat, j: nat)
    requires i <= j <= |s| && AllSpace(s[..i]) && AllSpace(s[j..]) && IsTrimmed(s[i..j])
    ensures Strip(s) == s[i..j]
  {
    var r := Strip(s);
    var i', j' :| 0 <= i' <= j' <= |s| && r == s[i'..j'] && AllSpace(s[..i']) && AllSpace(s[j'..]);
    TrimmedSliceUnique(s, i, j, i', j');
  }

  /** Two trimmed slices of `s` with whitespace-only ends are the same text. */
  lemma TrimmedSliceUnique(s: string, i: nat, j: nat, i': nat, j': nat)
    requires i <= j <= |s| && AllSpace(s[..i]) && AllSpace(s[j..]) && IsTrimmed(s[i..j])
    requires i' <= j' <= |s| && AllSpace(s[..i']) && AllSpace(s[j'..]) && IsTrimmed(s[i'..j'])
    ensures s[i..j] == s[i'..j']
  {
    if i == j {
      AllSpaceJoin(s, i);
    } else if i' == j' {
      AllSpaceJoin(s, i');
    } else {
      assert s[i..j][0] == s[i] && s[i'..j'][0] == s[i'];
      SpacePrefixBound(s, i, i');
      SpacePrefixBound(s, i', i);
      assert s[i..j][j - i - 1] == s[j - 1] && s[i'..j'][j' - i' - 1] == s[j' - 1];
      SpaceSuffixBound(s, j, j');
      SpaceSuffixBound(s, j', j);
    }
  }

  /** A non-space character at `k` bounds any whitespace-only prefix. */
  lemma SpacePrefixBound(s: string, k: nat, n: nat)
    requires k < |s| && !IsSpace(s[k]) && n <= |s| && AllSpace(s[..n])
    ensures n <= k
  {
  }

  /** A non-space character at `k - 1` bounds any whitespace-only suffix. */
  lemma SpaceSuffixBound(s: string, k: nat, n: nat)
    requires 0 < k <= |s| && !IsSpace(s[k - 1]) && n <= |s| && AllSpace(s[n..])
    ensures k <= n
  {
  }

  lemma AllSpaceJoin(s: string, n: nat)
    requires n <= |s| && AllSpace(s[..n]) && AllSpace(s[n..])
    ensures AllSpace(s)
  {
    forall k | 0 <= k < |s| ensures IsSpace(s[k]) {
      if k < n {
        assert s[..n][k] == s[k];
      } else {
        assert s[n..][k - n] == s[k];
      }
    }
  }

  function UpperChar(c: char): char {
    if IsLowerAscii(c) then (c as int - 32) as char else c
  }

  /** Python's `str.upper()` restricted to ASCII letters. */
  function Upper(s: string): (r: string)
    ensures |r| == |s|
  {
    seq(|s|, i requires 0 <= i < |s| => UpperChar(s[i]))
  }

  /** Upper-casing keeps a trimmed string trimmed and makes it upper case. */
  lemma UpperWellFormed(s: string)
    requires s != [] && IsTrimmed(s)
    ensures WellFormedSymbol(Upper(s))
  {
  }

  /** Python's `str.split(",")`: the pieces between commas, empty ones included. */
  function Split(s: string): (pieces: seq<string>)
    ensures |pieces| >= 1
    ensures forall i :: 0 <= i < |pieces| ==> ',' !in pieces[i]
  {
    if s == [] then [[]]
    else
      var rest := Split(s[1..]);
      if s[0] == ',' then [[]] + rest
      else [[s[0]] + rest[0]] + rest[1..]
  }

  /** Python's `",".join(pieces)`: the inverse of `Split`. */
  function Join(pieces: seq<string>): string
    requires |pieces| >= 1
  {
    if |pieces| == 1 then pieces[0] else pieces[0] + [','] + Join(pieces[1..])
  }

  lemma {:induction false} JoinSplit(s: string)
    ensures Join(Split(s)) == s
  {
    if s != [] {
      JoinSplit(s[1..]);
      var rest := Split(s[1..]);
      if s[0] != ',' && |rest| > 1 {
        assert Split(s)[1..] == rest[1..];
      }
    }
  }

  lemma {:induction false} SplitNoComma(p: string)
    requires ',' !in p
    ensures Split(p) == [p]
  {
    if p != [] {
      SplitNoComma(p[1..]);
      assert [p[0]] + p[1..] == p;
    }
  }

  /** One step of `Split`: the first character either ends a piece or joins the first piece. */
  lemma SplitCons(c: char, t: string)
    ensures Split([c] + t) == if c == ',' then [[]] + Split(t) else [[c] + Split(t)[0]] + Split(t)[1..]
  {
    assert ([c] + t)[0] == c && ([c] + t)[1..] == t;
  }

  /** The inductive step of `SplitConcat`: one more leading character on the left side. */
  lemma SplitConcatStep(c: char, t: string, b: string)
    requires Split(t + [','] + b) == Split(t) + Split(b)
    ensures Split([c] + (t + [','] + b)) == Split([c] + t) + Split(b)
  {
    SplitCons(c, t + [','] + b);
    SplitCons(c, t);
    var rest, left, right := Split(t + [','] + b), Split(t), Split(b);
    if c == ',' {
      ConcatAssoc([[]], left, right);
    } else {
      ConcatAssoc([[c] + left[0]], left[1..], right);
      assert left == [left[0]] + left[1..];
      assert rest[0] == left[0] && rest[1..] == left[1..] + right;
    }
  }

  /** Splitting at one comma splits the two sides independently. */
  lemma {:induction false} SplitConcat(a: string, b: string)
    ensures Split(a + [','] + b) == Split(a) + Split(b)
  {
    if a == [] {
      assert a + [','] + b == [','] + b;
      SplitCons(',', b);
    } else {
      var c, t := a[0], a[1..];
      assert a == [c] + t;
      assert a + [','] + b == [c] + (t + [','] + b);
      SplitConcat(t, b);
      SplitConcatStep(c, t, b);
    }
  }

  /** `Split` undoes `Join` when no piece holds a comma. */
  lemma {:induction false} SplitJoin(pieces: seq<string>)
    requires |pieces| >= 1
    requires forall i :: 0 <= i < |pieces| ==> ',' !in pieces[i]
    ensures Split(Join(pieces)) == pieces
  {
    if |pieces| == 1 {
      SplitNoComma(pieces[0]);
    } else {
      SplitJoin(pieces[1..]);
      SplitNoComma(pieces[0]);
      SplitConcat(pieces[0], Join(pieces[1..]));
      assert [pieces[0]] + pieces[1..] == pieces;
    }
  }

  /** One piece of the split list: trimmed and upper-cased, or dropped when blank. */
  function NormalizePiece(p: string): (syms: seq<Symbol>)
    ensures |syms| <= 1
  {
    var t := Strip(p);
    if t == [] then [] else [Upper(t)]
  }

  /** The pieces' results, concatenated in order (a list comprehension with a filter). */
  function FlatMap<A, B>(f: A -> seq<B>, xs: seq<A>): (ys: seq<B>)
  {
    if xs == [] then [] else f(xs[0]) + FlatMap(f, xs[1..])
  }

  function NormalizePieces(pieces: seq<string>): (syms: seq<Symbol>)
    ensures |syms| <= |pieces|
  {
    PiecesLength(pieces);
    FlatMap(NormalizePiece, pieces)
  }

  lemma {:induction false} PiecesLength(pieces: seq<string>)
    ensures |FlatMap(NormalizePiece, pieces)| <= |pieces|
  {
    if pieces != [] {
      PiecesLength(pieces[1..]);
    }
  }

  /** A piece is dropped exactly when it is blank; a kept piece is a well-formed symbol. */
  lemma PieceWellFormed(p: string)
    ensures NormalizePiece(p) == [] <==> AllSpace(p)
    ensures forall i :: 0 <= i < |NormalizePiece(p)| ==> WellFormedSymbol(NormalizePiece(p)[i])
  {
    var t := Strip(p);
    if t != [] {
      UpperWellFormed(t);
    }
  }

  lemma {:induction false} PiecesWellFormed(pieces: seq<string>)
    ensures forall i :: 0 <= i < |NormalizePieces(pieces)| ==> WellFormedSymbol(NormalizePieces(pieces)[i])
  {
    if pieces != [] {
      assert NormalizePieces(pieces) == NormalizePiece(pieces[0]) + NormalizePieces(pieces[1..]);
      PieceWellFormed(pieces[0]);
      PiecesWellFormed(pieces[1..]);
    }
  }

  lemma ConcatAssoc<T>(a: seq<T>, b: seq<T>, c: seq<T>)
    ensures a + (b + c) == (a + b) + c
  {
  }

  lemma {:induction false} FlatMapAppend<A, B>(f: A -> seq<B>, xs: seq<A>, ys: seq<A>)
    ensures FlatMap(f, xs + ys) == FlatMap(f, xs) + FlatMap(f, ys)
  {
    if xs == [] {
      assert xs + ys == ys;
    } else {
      var zs := xs + ys;
      assert zs[0] == xs[0] && zs[1..] == xs[1..] + ys;
      FlatMapAppend(f, xs[1..], ys);
      ConcatAssoc(f(xs[0]), FlatMap(f, xs[1..]), FlatMap(f, ys));
    }
  }

  /** `[s.strip().upper() for s in csv.split(",") if s.strip()]`. */
  function ParseSymbols(csv: string): (syms: seq<Symbol>)
    ensures |syms| <= |Split(csv)|
  {
    NormalizePieces(Split(csv))
  }

  /** Every element of a parsed list is a non-empty, trimmed, upper-case symbol. */
  lemma ParseWellFormed(csv: string)
    ensures forall i :: 0 <= i < |ParseSymbols(csv)| ==> WellFormedSymbol(ParseSymbols(csv)[i])
  {
    PiecesWellFormed(Split(csv));
  }

  /**
   * Parsing is homomorphic over commas: the symbols of `a,b` are those of `a` followed
   * by those of `b`, so order and duplicates are kept.
   */
  lemma ParseConcat(a: string, b: string)
    ensures ParseSymbols(a + [','] + b) == ParseSymbols(a) + ParseSymbols(b)
  {
    SplitConcat(a, b);
    FlatMapAppend(NormalizePiece, Split(a), Split(b));
  }

  /** A list with no comma parses to its trimmed upper-cased self, or to nothing when blank. */
  lemma ParseOnePiece(p: string)
    requires ',' !in p
    ensures AllSpace(p) ==> ParseSymbols(p) == []
    ensures !AllSpace(p) ==> ParseSymbols(p) == [Upper(Strip(p))]
  {
    SplitNoComma(p);
    assert FlatMap(NormalizePiece, [p]) == NormalizePiece(p) + FlatMap(NormalizePiece, []);
  }

  /** Upper-casing leaves an upper-case string alone. */
  lemma UpperKeepsUpperCase(s: string)
    requires IsUpperCase(s)
    ensures Upper(s) == s
  {
    assert forall i :: 0 <= i < |s| ==> Upper(s)[i] == s[i];
  }

  /** Normalising never introduces a comma. */
  lemma PieceNoComma(p: string)
    requires ',' !in p
    ensures forall i :: 0 <= i < |NormalizePiece(p)| ==> ',' !in NormalizePiece(p)[i]
  {
    var t := Strip(p);
    if t != [] {
      var a, b :| 0 <= a <= b <= |p| && t == p[a..b] && AllSpace(p[..a]) && AllSpace(p[b..]);
      SliceKeepsOut(p, a, b, ',');
      UpperNoComma(t);
      assert NormalizePiece(p) == [Upper(t)];
    }
  }

  lemma SliceKeepsOut<T>(s: seq<T>, a: nat, b: nat, x: T)
    requires a <= b <= |s| && x !in s
    ensures x !in s[a..b]
  {
  }

  lemma UpperNoComma(t: string)
    requires ',' !in t
    ensures ',' !in Upper(t)
  {
  }

  lemma {:induction false} PiecesNoComma(pieces: seq<string>)
    requires forall i :: 0 <= i < |pieces| ==> ',' !in pieces[i]
    ensures forall i :: 0 <= i < |NormalizePieces(pieces)| ==> ',' !in NormalizePieces(pieces)[i]
  {
    if pieces != [] {
      PieceNoComma(pieces[0]);
      PiecesNoComma(pieces[1..]);
      assert NormalizePieces(pieces) == NormalizePiece(pieces[0]) + NormalizePieces(pieces[1..]);
    }
  }

  /** A list of well-formed symbols is a fixed point of normalisation. */
  lemma {:induction false} NormalizeFixesWellFormed(ws: seq<string>)
    requires forall i :: 0 <= i < |ws| ==> WellFormedSymbol(ws[i])
    ensures NormalizePieces(ws) == ws
  {
    if ws != [] {
      var w := ws[0];
      assert WellFormedSymbol(w);
      assert TrimLeft(w) == w;
      assert TrimRight(w) == w;
      UpperKeepsUpperCase(w);
      assert NormalizePiece(w) == [w];
      NormalizeFixesWellFormed(ws[1..]);
      assert NormalizePieces(ws) == [w] + ws[1..];
    }
  }

  /** A parsed list written back as a query parameter: comma-joined, the empty list as "". */
  function Unparse(syms: seq<Symbol>): string {
    if syms == [] then "" else Join(syms)
  }

  lemma ParseEmpty()
    ensures ParseSymbols("") == []
  {
    assert Split("") == [""];
    assert AllSpace("");
    assert NormalizePiece("") == [];
    assert NormalizePieces([""]) == NormalizePiece("") + NormalizePieces([]);
  }

  lemma ParseNonEmptyIdempotent(csv: string)
    requires ParseSymbols(csv) != []
    ensures ParseSymbols(Join(ParseSymbols(csv))) == ParseSymbols(csv)
  {
    var syms := ParseSymbols(csv);
    PiecesNoComma(Split(csv));
    SplitJoin(syms);
    ParseWellFormed(csv);
    NormalizeFixesWellFormed(syms);
  }

  /** Parsing is idempotent: parsing a parsed list written back with commas gives the same list. */
  lemma ParseIdempotent(csv: string)
    ensures ParseSymbols(Unparse(ParseSymbols(csv))) == ParseSymbols(csv)
  {
    if ParseSymbols(csv) == [] {
      ParseEmpty();
    } else {
      ParseNonEmptyIdempotent(csv);
    }
  }

  /** A single well-formed symbol parses to itself. */
  lemma ParseSingleSymbol(w: string)
    requires ',' !in w && WellFormedSymbol(w)
    ensures ParseSymbols(w) == [w]
  {
    SplitNoComma(w);
    NormalizeFixesWellFormed([w]);
  }
}
