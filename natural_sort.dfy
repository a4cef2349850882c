/** `natural_sort_key` (main.py) and the order it induces on file names.
    The key of a name is `re.split('([0-9]+)', name)` with every digit run turned
    into its integer value and every other piece lowercased; keys compare as
    Python lists do. */
module NaturalSort {
  import opened Wrappers
  import opened Ascii
  import StableSort

  // ---------------------------------------------------------------------------
  // re.split('([0-9]+)', s)
  // ---------------------------------------------------------------------------

  /** The length of the longest prefix of `s` that holds no digit. */
  function NonDigitRun(s: string): (n: nat)
    ensures n <= |s|
    ensures DigitFree(s[..n])
    ensures n < |s| ==> IsDigit(s[n])
  {
    if s == [] || IsDigit(s[0]) then 0 else 1 + NonDigitRun(s[1..])
  }

  /** The length of the longest prefix of `s` made of digits. */
  function DigitRun(s: string): (n: nat)
    ensures n <= |s|
    ensures AllDigits(s[..n])
    ensures n < |s| ==> !IsDigit(s[n])
  {
    if s == [] || !IsDigit(s[0]) then 0 else 1 + DigitRun(s[1..])
  }

  /** The shape of the list returned by splitting on a capturing group of digit
      runs: a digit-free piece, then, as long as the list goes on, a non-empty
      digit run followed by the rest of the same shape. A text piece that has a
      digit run on both sides is non-empty, because the runs are maximal. */
  predicate Alternating(tokens: seq<string>)
    decreases |tokens|
  {
    && |tokens| > 0
    && DigitFree(tokens[0])
    && (|tokens| == 1 ||
        (&& |tokens| >= 3
         && IsDigitString(tokens[1])
         && (|tokens| > 3 ==> tokens[2] != [])
         && Alternating(tokens[2..])))
  }

  /** The same shape read position by position: odd length, digit-free pieces at
      even positions, non-empty digit runs at odd positions, non-empty text
      between two runs. */
  lemma {:induction false} AlternatingAt(tokens: seq<string>)
    requires Alternating(tokens)
    ensures |tokens| % 2 == 1
    ensures forall i :: 0 <= i < |tokens| && i % 2 == 0 ==> DigitFree(tokens[i])
    ensures forall i :: 0 <= i < |tokens| && i % 2 == 1 ==> IsDigitString(tokens[i])
    ensures forall i :: 0 < i < |tokens| - 1 && i % 2 == 0 ==> tokens[i] != []
    decreases |tokens|
  {
    if |tokens| > 1 {
      var tail := tokens[2..];
      AlternatingAt(tail);
      assert forall i :: 2 <= i < |tokens| ==> tokens[i] == tail[i - 2] && (i % 2 == (i - 2) % 2);
    }
  }

  /** `''.join(tokens)`. */
  function Concat(tokens: seq<string>): string {
    if tokens == [] then [] else tokens[0] + Concat(tokens[1..])
  }

  lemma ConcatTwo(tokens: seq<string>)
    requires |tokens| >= 2
    ensures Concat(tokens) == tokens[0] + tokens[1] + Concat(tokens[2..])
  {
    assert tokens[1..][1..] == tokens[2..];
    assert Concat(tokens[1..]) == tokens[1] + Concat(tokens[2..]);
  }

  /** A text piece and a digit run put in front of an alternating list. */
  lemma Cons(a: string, b: string, tail: seq<string>)
    requires DigitFree(a) && IsDigitString(b) && Alternating(tail)
    requires |tail| > 1 ==> tail[0] != []
    ensures Alternating([a, b] + tail)
    ensures Concat([a, b] + tail) == a + b + Concat(tail)
  {
    var tokens := [a, b] + tail;
    assert tokens[2..] == tail;
    ConcatTwo(tokens);
  }

  /** `re.split('([0-9]+)', s)`: the text before the first digit run, the run, and
      the split of the rest. */
  function Split(s: string): seq<string>
    decreases |s|
  {
    var n := NonDigitRun(s);
    if n == |s| then [s]
    else
      var rest := s[n..];
      var d := DigitRun(rest);
      assert d > 0;
      [s[..n], rest[..d]] + Split(rest[d..])
  }

  /** The pieces of the split alternate as `Alternating` says and join back to
      the name; a name that starts with a non-digit has non-empty first piece. */
  lemma {:induction false} SplitShape(s: string)
    ensures Alternating(Split(s))
    ensures Concat(Split(s)) == s
    ensures s != [] && !IsDigit(s[0]) ==> Split(s)[0] != []
    decreases |s|
  {
    var n := NonDigitRun(s);
    var a, rest := s[..n], s[n..];
    if n == |s| {
      assert a == s;
      SplitFront(s, [], []);
      assert Concat([s]) == s + Concat([]);
    } else {
      var d := DigitRun(rest);
      var b, t := rest[..d], rest[d..];
      assert s == a + b + t;
      SplitFront(a, b, t);
      SplitShape(t);
      Cons(a, b, Split(t));
    }
  }

  /** The split is the only alternating decomposition of `s`: any list of pieces
      of that shape that joins back to `s` is `Split(s)`. */
  lemma {:induction false} SplitUnique(s: string, tokens: seq<string>)
    requires Alternating(tokens)
    requires Concat(tokens) == s
    ensures tokens == Split(s)
    decreases |tokens|
  {
    if |tokens| == 1 {
      assert Concat(tokens) == tokens[0] + Concat([]);
      assert s == tokens[0];
      SplitFront(s, [], []);
      assert s + [] == s;
    } else {
      var a, b, tail := tokens[0], tokens[1], tokens[2..];
      var t := Concat(tail);
      assert s == a + b + t by {
        ConcatTwo(tokens);
      }
      assert tail == Split(t) by {
        SplitUnique(t, tail);
      }
      // The digit run b stops where the next text piece starts: either that
      // piece is non-empty and begins with a non-digit, or it is the last, empty one.
      assert Split(s) == [a, b] + Split(t) by {
        ConcatHead(tail);
        SplitFront(a, b, t);
      }
      assert tokens == [a, b] + tail;
    }
  }

  /** Splitting a digit-free text `a`, followed by a digit run `b` that the rest
      `t` does not extend, yields `a`, `b` and the split of `t`; with no run, the
      text alone. */
  lemma SplitFront(a: string, b: string, t: string)
    requires DigitFree(a) && AllDigits(b)
    requires b == [] ==> t == []
    requires t == [] || !IsDigit(t[0])
    ensures b == [] ==> Split(a) == [a]
    ensures b != [] ==> Split(a + b + t) == [a, b] + Split(t)
  {
    var s := a + b + t;
    var rest := b + t;
    assert s == a + rest;
    NonDigitRunOfDigitFree(a, rest);
    if b == [] {
      assert a + b + t == a;
    } else {
      assert s[|a|..] == rest && s[..|a|] == a;
      DigitRunOfDigits(b, t);
      assert rest[|b|..] == t && rest[..|b|] == b;
    }
  }

  /** The join of an alternating list starts inside its first piece, or is empty
      when the list is a single empty piece, or starts with a digit. */
  lemma ConcatHead(tokens: seq<string>)
    requires Alternating(tokens)
    ensures tokens[0] == [] ==> Concat(tokens) == [] || IsDigit(Concat(tokens)[0])
    ensures tokens[0] != [] ==> Concat(tokens) != [] && Concat(tokens)[0] == tokens[0][0]
  {
    assert Concat(tokens) == tokens[0] + Concat(tokens[1..]);
    if tokens[0] == [] && |tokens| > 1 {
      ConcatTwo(tokens);
      assert IsDigitString(tokens[1]);
    }
  }

  lemma {:induction false} NonDigitRunOfDigitFree(a: string, b: string)
    requires DigitFree(a)
    requires b == [] || IsDigit(b[0])
    ensures NonDigitRun(a + b) == |a|
    decreases |a|
  {
    if a != [] {
      assert (a + b)[1..] == a[1..] + b;
      NonDigitRunOfDigitFree(a[1..], b);
    } else {
      assert a + b == b;
    }
  }

  lemma {:induction false} DigitRunOfDigits(a: string, b: string)
    requires AllDigits(a)
    requires b == [] || !IsDigit(b[0])
    ensures DigitRun(a + b) == |a|
    decreases |a|
  {
    if a != [] {
      assert (a + b)[1..] == a[1..] + b;
      DigitRunOfDigits(a[1..], b);
    } else {
      assert a + b == b;
    }
  }

  // ---------------------------------------------------------------------------
  // The key
  // ---------------------------------------------------------------------------

  /** An element of a key: a lowercased text piece or the integer of a digit run. */
  datatype Token = Text(text: string) | Number(value: nat)

  /** `int(text) if text.isdigit() else text.lower()`. */
  function ToToken(piece: string): Token {
    if IsDigitString(piece) then Number(DigitsValue(piece)) else Text(LowerString(piece))
  }

  predicate IsLowerText(s: string) {
    forall i :: 0 <= i < |s| ==> !IsUpper(s[i]) && !IsDigit(s[i])
  }

  /** `natural_sort_key(s)`: one token per piece of the split. */
  function Key(s: string): (key: seq<Token>)
    ensures |key| == |Split(s)|
    ensures forall i :: 0 <= i < |key| ==> key[i] == ToToken(Split(s)[i])
  {
    var pieces := Split(s);
    seq(|pieces|, i requires 0 <= i < |pieces| => ToToken(pieces[i]))
  }

  /** A key alternates text and integers: it has odd length, lowercase digit-free
      text at even positions, and at odd positions the integer value of the digit
      run at that position of the split. */
  lemma KeyShape(s: string)
    ensures |Key(s)| % 2 == 1
    ensures forall i :: 0 <= i < |Key(s)| ==> (Key(s)[i].Number? <==> i % 2 == 1)
    ensures forall i :: 0 <= i < |Key(s)| && i % 2 == 0 ==>
      Key(s)[i] == Text(LowerString(Split(s)[i])) && IsLowerText(Key(s)[i].text)
    ensures forall i :: 0 <= i < |Key(s)| && i % 2 == 1 ==>
      AllDigits(Split(s)[i]) && Key(s)[i] == Number(DigitsValue(Split(s)[i]))
  {
    var pieces := Split(s);
    SplitShape(s);
    AlternatingAt(pieces);
    forall i | 0 <= i < |pieces| && i % 2 == 0
      ensures Key(s)[i] == Text(LowerString(pieces[i])) && IsLowerText(Key(s)[i].text)
    {
      assert DigitFree(pieces[i]);
    }
  }

  /** Every piece lowercased. */
  function LowerPieces(pieces: seq<string>): (r: seq<string>)
    ensures |r| == |pieces|
    ensures forall i :: 0 <= i < |pieces| ==> r[i] == LowerString(pieces[i])
  {
    if pieces == [] then [] else [LowerString(pieces[0])] + LowerPieces(pieces[1..])
  }

  /** Lowercasing keeps the alternating shape and commutes with the join. */
  lemma {:induction false} LowerPiecesShape(pieces: seq<string>)
    ensures Alternating(pieces) ==> Alternating(LowerPieces(pieces))
    ensures Concat(LowerPieces(pieces)) == LowerString(Concat(pieces))
  {
    var lowered := LowerPieces(pieces);
    if pieces != [] {
      var rest := pieces[1..];
      LowerPiecesShape(rest);
      assert lowered[1..] == LowerPieces(rest);
      assert LowerString(pieces[0] + Concat(rest)) == LowerString(pieces[0]) + LowerString(Concat(rest));
      if |pieces| >= 3 {
        LowerPiecesShape(pieces[2..]);
        assert lowered[2..] == LowerPieces(pieces[2..]);
      }
    }
  }

  /** Lowercasing a piece does not change its token. */
  lemma LowerToken(piece: string)
    ensures ToToken(LowerString(piece)) == ToToken(piece)
  {
    var lowered := LowerString(piece);
    if IsDigitString(piece) {
      assert lowered == piece;
    } else {
      assert !IsDigitString(lowered);
      assert LowerString(lowered) == lowered;
    }
  }

  /** Names that differ only in letter case have the same key. */
  lemma KeyIgnoresCase(s: string)
    ensures Key(LowerString(s)) == Key(s)
  {
    var pieces := Split(s);
    var lowered := LowerPieces(pieces);
    assert Split(LowerString(s)) == lowered by {
      SplitShape(s);
      LowerPiecesShape(pieces);
      SplitUnique(LowerString(s), lowered);
    }
    forall i | 0 <= i < |pieces| ensures Key(LowerString(s))[i] == Key(s)[i] {
      LowerToken(pieces[i]);
    }
  }

  /** The key of a text piece, a digit run and a rest that does not extend the
      run: the tokens of the two pieces, then the key of the rest. */
  lemma KeyCons(a: string, b: string, t: string)
    requires DigitFree(a) && IsDigitString(b)
    requires t == [] || !IsDigit(t[0])
    ensures Key(a + b + t) == [ToToken(a), ToToken(b)] + Key(t)
  {
    SplitFront(a, b, t);
    var k, r := Key(a + b + t), [ToToken(a), ToToken(b)] + Key(t);
    assert |k| == |r|;
    forall j | 0 <= j < |k| ensures k[j] == r[j] {
      if j >= 2 {
        assert Split(a + b + t)[j] == Split(t)[j - 2];
      }
    }
  }

  /** A zero put in front of the digit run `b` that follows the text `a`. */
  lemma KeyZeroFront(s: string, a: string, b: string, t: string)
    requires s == a + b + t
    requires DigitFree(a) && IsDigitString(b)
    requires t == [] || !IsDigit(t[0])
    ensures Key(s[..|a|] + "0" + s[|a|..]) == Key(s)
  {
    InsertAt(a, b + t, 0, "0");
    assert s[..|a|] + "0" + s[|a|..] == a + ("0" + b) + t;
    LeadingZeroValue(b);
    KeyCons(a, "0" + b, t);
    KeyCons(a, b, t);
  }

  /** A zero put at position `j` of the rest `t` that follows the first text `a`
      and run `b`, when it leaves the key of `t` unchanged. */
  lemma KeyZeroBehind(s: string, a: string, b: string, t: string, j: nat)
    requires s == a + b + t
    requires DigitFree(a) && IsDigitString(b)
    requires 0 < j < |t| && !IsDigit(t[0])
    requires Key(t[..j] + "0" + t[j..]) == Key(t)
    ensures Key(s[..|a| + |b| + j] + "0" + s[|a| + |b| + j..]) == Key(s)
  {
    var t' := t[..j] + "0" + t[j..];
    InsertAt(a + b, t, j, "0");
    assert s[..|a| + |b| + j] + "0" + s[|a| + |b| + j..] == a + b + t';
    assert t'[0] == t[0];
    KeyCons(a, b, t');
    KeyCons(a, b, t);
  }

  /** Inserting `c` at position `k` of `y` in `x + y`. */
  lemma InsertAt(x: string, y: string, k: nat, c: string)
    requires k <= |y|
    ensures (x + y)[..|x| + k] + c + (x + y)[|x| + k..] == x + (y[..k] + c + y[k..])
  {
    assert (x + y)[..|x| + k] == x + y[..k];
    assert (x + y)[|x| + k..] == y[k..];
  }

  /** The first text piece `a`, digit run `b` and rest `t` of a name that holds
      a digit; a run that starts after the first one starts at `j` in `t`. */
  lemma RunStartPosition(s: string, i: nat) returns (a: string, b: string, t: string, j: nat)
    requires i < |s| && IsDigit(s[i]) && (i == 0 || !IsDigit(s[i - 1]))
    ensures s == a + b + t
    ensures DigitFree(a) && IsDigitString(b) && (t == [] || !IsDigit(t[0]))
    ensures i == NonDigitRun(s) ==> i == |a|
    ensures i != NonDigitRun(s) ==>
              && i == |a| + |b| + j && 0 < j < |t|
              && IsDigit(t[j]) && !IsDigit(t[j - 1])
  {
    var n := NonDigitRun(s);
    if n == |s| {
      assert false;
    }
    var rest := s[n..];
    var d := DigitRun(rest);
    a, b, t := s[..n], rest[..d], rest[d..];
    assert s == a + b + t;
    assert i >= n;
    j := 0;
    if i != n {
      assert i >= n + d;
      assert i > n + d;
      j := i - n - d;
      assert t[j] == s[i] && t[j - 1] == s[i - 1];
    }
  }

  /** Names that differ only in a leading zero in front of any one of their
      digit runs have the same key: `i` is where a run starts in `s`. */
  lemma {:induction false} KeyZeroAt(s: string, i: nat)
    requires i < |s| && IsDigit(s[i]) && (i == 0 || !IsDigit(s[i - 1]))
    ensures Key(s[..i] + "0" + s[i..]) == Key(s)
    decreases |s|
  {
    var a, b, t, j := RunStartPosition(s, i);
    if i == NonDigitRun(s) {
      KeyZeroFront(s, a, b, t);
    } else {
      KeyZeroAt(t, j);
      KeyZeroBehind(s, a, b, t, j);
    }
  }

  // ---------------------------------------------------------------------------
  // Python's `<` on strings and on lists of tokens
  // ---------------------------------------------------------------------------

  /** `a < b` on Python strings: lexicographic by code point, a proper prefix first. */
  function StrLess(a: string, b: string): bool {
    if a == [] then b != []
    else if b == [] then false
    else if a[0] == b[0] then StrLess(a[1..], b[1..])
    else a[0] < b[0]
  }

  /** `x < y` on two tokens; `None` is the `TypeError` Python raises when an
      integer is compared with a string. */
  function TokenLess(x: Token, y: Token): Option<bool> {
    match (x, y)
    case (Text(a), Text(b)) => Some(StrLess(a, b))
    case (Number(m), Number(n)) => Some(m < n)
    case _ => None
  }

  /** `a < b` on Python lists: the first unequal pair decides; if one list is a
      prefix of the other, the shorter is smaller. */
  function KeyLess(a: seq<Token>, b: seq<Token>): Option<bool> {
    if a == [] then Some(b != [])
    else if b == [] then Some(false)
    else if a[0] == b[0] then KeyLess(a[1..], b[1..])
    else TokenLess(a[0], b[0])
  }

  /** Two keys hold the same kind of token at every position they share. */
  predicate KindsAgree(a: seq<Token>, b: seq<Token>) {
    forall i :: 0 <= i < |a| && i < |b| ==> a[i].Number? == b[i].Number?
  }

  lemma {:induction false} KeyLessDefined(a: seq<Token>, b: seq<Token>)
    requires KindsAgree(a, b)
    ensures KeyLess(a, b).Some?
  {
    if a != [] && b != [] && a[0] == b[0] {
      KeyLessDefined(a[1..], b[1..]);
    }
  }

  /** Comparing two natural sort keys never raises: strings meet strings and
      integers meet integers at every position. */
  lemma KeysAlwaysComparable(s: string, t: string)
    ensures KindsAgree(Key(s), Key(t))
    ensures KeyLess(Key(s), Key(t)).Some?
  {
    KeyShape(s);
    KeyShape(t);
    KeyLessDefined(Key(s), Key(t));
  }

  /** The order `sort(key=natural_sort_key)` uses. */
  predicate NameLess(s: string, t: string) {
    KeyLess(Key(s), Key(t)) == Some(true)
  }

  lemma {:induction false} StrLessIrreflexive(a: string)
    ensures !StrLess(a, a)
  {
    if a != [] {
      StrLessIrreflexive(a[1..]);
    }
  }

  lemma {:induction false} StrLessTransitive(a: string, b: string, c: string)
    requires StrLess(a, b) && StrLess(b, c)
    ensures StrLess(a, c)
  {
    if a != [] && b != [] && c != [] && a[0] == b[0] && b[0] == c[0] {
      StrLessTransitive(a[1..], b[1..], c[1..]);
    }
  }

  lemma {:induction false} StrLessTotal(a: string, b: string)
    requires a != b
    ensures StrLess(a, b) || StrLess(b, a)
  {
    if a != [] && b != [] && a[0] == b[0] {
      assert a == [a[0]] + a[1..] && b == [b[0]] + b[1..];
      StrLessTotal(a[1..], b[1..]);
    }
  }

  lemma {:induction false} KeyLessIrreflexive(a: seq<Token>)
    ensures KeyLess(a, a) == Some(false)
  {
    if a != [] {
      KeyLessIrreflexive(a[1..]);
    }
  }

  lemma {:induction false} KeyLessTransitive(a: seq<Token>, b: seq<Token>, c: seq<Token>)
    requires KindsAgree(a, b) && KindsAgree(b, c)
    requires KeyLess(a, b) == Some(true) && KeyLess(b, c) == Some(true)
    ensures KeyLess(a, c) == Some(true)
  {
    if a != [] && b != [] && c != [] {
      if a[0] == b[0] && b[0] == c[0] {
        KeyLessTransitive(a[1..], b[1..], c[1..]);
      } else if a[0] == b[0] {
        assert a[0] != c[0];
      } else if b[0] == c[0] {
        assert a[0] != c[0];
      } else {
        match (a[0], b[0], c[0])
        case (Text(x), Text(y), Text(z)) =>
          StrLessTransitive(x, y, z);
          StrLessIrreflexive(x);
        case (Number(x), Number(y), Number(z)) =>
        case _ =>
      }
    }
  }

  lemma {:induction false} KeyLessTotal(a: seq<Token>, b: seq<Token>)
    requires KindsAgree(a, b)
    requires a != b
    ensures KeyLess(a, b) == Some(true) || KeyLess(b, a) == Some(true)
  {
    if a != [] && b != [] {
      if a[0] == b[0] {
        assert a == [a[0]] + a[1..] && b == [b[0]] + b[1..];
        KeyLessTotal(a[1..], b[1..]);
      } else {
        match (a[0], b[0])
        case (Text(x), Text(y)) =>
          StrLessTotal(x, y);
        case (Number(x), Number(y)) =>
        case _ =>
      }
    }
  }

  /** No name sorts before itself. */
  lemma NameLessIrreflexive(s: string)
    ensures !NameLess(s, s)
  {
    KeyLessIrreflexive(Key(s));
  }

  lemma NameLessTransitive(s: string, t: string, u: string)
    requires NameLess(s, t) && NameLess(t, u)
    ensures NameLess(s, u)
  {
    KeysAlwaysComparable(s, t);
    KeysAlwaysComparable(t, u);
    KeyLessTransitive(Key(s), Key(t), Key(u));
  }

  /** Names that neither sort before the other are exactly the names with equal
      keys: the ties a stable sort keeps in input order. */
  lemma NameTie(s: string, t: string)
    ensures (!NameLess(s, t) && !NameLess(t, s)) <==> Key(s) == Key(t)
  {
    if Key(s) != Key(t) {
      KeysAlwaysComparable(s, t);
      KeyLessTotal(Key(s), Key(t));
    } else {
      KeyLessIrreflexive(Key(s));
    }
  }

  // ---------------------------------------------------------------------------
  // image_files.sort(key=natural_sort_key)
  // ---------------------------------------------------------------------------

  /** Python's `<` on two keys, with the `TypeError` case read as "not less". */
  predicate KeyBefore(a: seq<Token>, b: seq<Token>) {
    KeyLess(a, b) == Some(true)
  }

  /** The file list in natural order. */
  function SortNames(names: seq<string>): seq<string> {
    StableSort.Sort(names, Key, KeyBefore)
  }

  /** The natural order is a strict order on the keys of all names. */
  lemma NaturalOrderIsStrict()
    ensures StableSort.StrictOrderOn(Key, KeyBefore)
  {
    forall x ensures !KeyBefore(Key(x), Key(x)) {
      NameLessIrreflexive(x);
    }
    forall x, y, z | KeyBefore(Key(x), Key(y)) && KeyBefore(Key(y), Key(z))
      ensures KeyBefore(Key(x), Key(z))
    {
      NameLessTransitive(x, y, z);
    }
  }

  /** The natural sort returns a permutation of the file list in which no name
      sorts before an earlier one, and names with equal keys (they differ only
      in letter case or leading zeros) keep their input order. */
  lemma SortNamesCorrect(names: seq<string>)
    ensures multiset(SortNames(names)) == multiset(names)
    ensures forall i, j :: 0 <= i < j < |SortNames(names)| ==> !NameLess(SortNames(names)[j], SortNames(names)[i])
    ensures forall k :: StableSort.WithKey(SortNames(names), Key, k) == StableSort.WithKey(names, Key, k)
  {
    NaturalOrderIsStrict();
    StableSort.SortCorrect(names, Key, KeyBefore);
  }

  // ---------------------------------------------------------------------------
  // Examples
  // ---------------------------------------------------------------------------

  /** The key of a name made of a text stem, one number and a text extension. */
  lemma KeyOfNumbered(stem: string, n: string, ext: string)
    requires DigitFree(stem) && IsDigitString(n) && DigitFree(ext)
    ensures Key(stem + n + ext) == [Text(LowerString(stem)), Number(DigitsValue(n)), Text(LowerString(ext))]
  {
    SplitFront(ext, [], []);
    SplitFront(stem, n, ext);
    assert !IsDigitString(stem) && !IsDigitString(ext);
  }

  /** Names that differ only in their number sort by the number's value, not by
      its digits as text. */
  lemma NumberedOrder(stem: string, ext: string, m: string, n: string)
    requires DigitFree(stem) && DigitFree(ext) && IsDigitString(m) && IsDigitString(n)
    ensures NameLess(stem + m + ext, stem + n + ext) <==> DigitsValue(m) < DigitsValue(n)
  {
    var x, y := LowerString(stem), LowerString(ext);
    assert Key(stem + m + ext) == [Text(x), Number(DigitsValue(m)), Text(y)] by {
      KeyOfNumbered(stem, m, ext);
    }
    assert Key(stem + n + ext) == [Text(x), Number(DigitsValue(n)), Text(y)] by {
      KeyOfNumbered(stem, n, ext);
    }
    NumberedKeys(x, y, DigitsValue(m), DigitsValue(n));
  }

  lemma NumberedKeys(x: string, y: string, m: nat, n: nat)
    ensures KeyLess([Text(x), Number(m), Text(y)], [Text(x), Number(n), Text(y)]) == Some(m < n)
  {
    var a, b := [Text(x), Number(m), Text(y)], [Text(x), Number(n), Text(y)];
    assert a[1..] == [Number(m), Text(y)] && b[1..] == [Number(n), Text(y)];
    assert a[1..][1..] == [Text(y)] && b[1..][1..] == [Text(y)];
    KeyLessIrreflexive([Text(y)]);
  }

  /** `img1.jpg` sorts before `img2.jpg`. */
  lemma OneBeforeTwo()
    ensures NameLess("img1.jpg", "img2.jpg")
  {
    var stem, ext := "img", ".jpg";
    assert DigitFree(stem) && DigitFree(ext);
    assert stem + "1" + ext == "img1.jpg" && stem + "2" + ext == "img2.jpg";
    assert DigitsValue("1") == 1 && DigitsValue("2") == 2;
    NumberedOrder(stem, ext, "1", "2");
  }

  /** `img2.jpg` sorts before `img10.jpg` and not the other way round. */
  lemma TwoBeforeTen()
    ensures NameLess("img2.jpg", "img10.jpg") && !NameLess("img10.jpg", "img2.jpg")
  {
    var stem, ext := "img", ".jpg";
    assert DigitFree(stem) && DigitFree(ext);
    assert stem + "2" + ext == "img2.jpg" && stem + "10" + ext == "img10.jpg";
    assert DigitsValue("1") == 1;
    assert DigitsValue("2") == 2 && DigitsValue("10") == 10;
    NumberedOrder(stem, ext, "2", "10");
    NumberedOrder(stem, ext, "10", "2");
  }

  /** As plain text, `img10.jpg` comes before `img2.jpg`. */
  lemma TextOrderDiffers()
    ensures StrLess("img10.jpg", "img2.jpg")
  {
    var a, b := "img10.jpg", "img2.jpg";
    assert a[1..] == "mg10.jpg" && b[1..] == "mg2.jpg";
    assert a[1..][1..] == "g10.jpg" && b[1..][1..] == "g2.jpg";
    assert a[1..][1..][1..] == "10.jpg" && b[1..][1..][1..] == "2.jpg";
  }

  /** Names that differ only in a leading zero of their number have equal keys. */
  lemma KeyLeadingZero(stem: string, n: string, ext: string)
    requires DigitFree(stem) && IsDigitString(n) && DigitFree(ext)
    ensures Key(stem + ("0" + n) + ext) == Key(stem + n + ext)
  {
    LeadingZeroValue(n);
    KeyOfNumbered(stem, "0" + n, ext);
    KeyOfNumbered(stem, n, ext);
  }

  /** `img01.jpg` and `img1.jpg` have the same key. */
  lemma LeadingZeroExample()
    ensures Key("img01.jpg") == Key("img1.jpg")
  {
    var stem, ext := "img", ".jpg";
    assert DigitFree(stem) && DigitFree(ext);
    assert stem + ("0" + "1") + ext == "img01.jpg";
    assert stem + "1" + ext == "img1.jpg";
    KeyLeadingZero(stem, "1", ext);
  }

  /** The file list in character order, `["img1.jpg", "img10.jpg", "img2.jpg"]`,
      sorts to `["img1.jpg", "img2.jpg", "img10.jpg"]`. */
  lemma SortExample()
    ensures SortNames(["img1.jpg", "img10.jpg", "img2.jpg"]) == ["img1.jpg", "img2.jpg", "img10.jpg"]
  {
    OneBeforeTwo();
    TwoBeforeTen();
    NaturalOrderIsStrict();
    StableSort.SortThree("img1.jpg", "img2.jpg", "img10.jpg", Key, KeyBefore);
  }

  /** `["img2.jpg", "img10.jpg", "img1.jpg"]` sorts to
      `["img1.jpg", "img2.jpg", "img10.jpg"]`. */
  lemma SortExampleMixed()
    ensures SortNames(["img2.jpg", "img10.jpg", "img1.jpg"]) == ["img1.jpg", "img2.jpg", "img10.jpg"]
  {
    OneBeforeTwo();
    TwoBeforeTen();
    NaturalOrderIsStrict();
    StableSort.SortMiddleFirst("img1.jpg", "img2.jpg", "img10.jpg", Key, KeyBefore);
  }
}
