/**
 * The pieces of Python's string behaviour the table scraper relies on:
 * `str.split()` with no separator, `' '.join`, `str.index`, slicing past the
 * end, `str.startswith` and `int()` on a token.
 */
module PyStr {
  import opened Wrappers

  /** The characters Python's `str.isspace` accepts; `str.split()` splits on runs of them. */
  predicate IsSpace(c: char) {
    var n := c as int;
    || 9 <= n <= 13        // \t \n \v \f \r
    || 28 <= n <= 32       // information separators and ' '
    || n == 0x85 || n == 0xA0 || n == 0x1680
    || 0x2000 <= n <= 0x200A
    || n == 0x2028 || n == 0x2029 || n == 0x202F || n == 0x205F || n == 0x3000
  }

  /** A token of `str.split()`: non-empty and free of whitespace. */
  predicate IsWord(w: string) {
    |w| > 0 && forall i :: 0 <= i < |w| ==> !IsSpace(w[i])
  }

  predicate AllWords(ws: seq<string>) {
    forall k :: 0 <= k < |ws| ==> IsWord(ws[k])
  }

  predicate AllSpace(s: string) {
    forall i :: 0 <= i < |s| ==> IsSpace(s[i])
  }

  /** `s.startswith(prefix)` for a one-character prefix. */
  predicate StartsWith(s: string, c: char) {
    |s| > 0 && s[0] == c
  }

  /** `s[n:]` for a non-negative start: an index past the end gives the empty string. */
  function Drop(s: string, n: nat): (r: string)
    ensures |r| == if n <= |s| then |s| - n else 0
    ensures forall j :: 0 <= j < |r| ==> r[j] == s[n + j]
  {
    if n <= |s| then s[n..] else ""
  }

  /** `s.index(c)`: the first position of `c`, or None where Python raises ValueError. */
  function IndexOf(s: string, c: char): (r: Option<nat>)
    ensures r.None? <==> c !in s
    ensures r.Some? ==> r.value < |s| && s[r.value] == c && c !in s[..r.value]
  {
    if s == [] then None
    else if s[0] == c then Some(0)
    else
      var k := IndexOf(s[1..], c);
      assert s[1..][..if k.Some? then k.value else 0] == s[1..if k.Some? then k.value + 1 else 1];
      if k.None? then None else Some(k.value + 1)
  }

  /** The length of the run of non-whitespace characters that starts `s`. */
  function WordLength(s: string): (n: nat)
    ensures n <= |s|
    ensures forall i :: 0 <= i < n ==> !IsSpace(s[i])
    ensures n < |s| ==> IsSpace(s[n])
  {
    if s == [] || IsSpace(s[0]) then 0 else 1 + WordLength(s[1..])
  }

  /** `s.split()`: the maximal runs of non-whitespace characters, in order. */
  function Split(s: string): (r: seq<string>)
    ensures AllWords(r)
    decreases |s|
  {
    if s == [] then []
    else if IsSpace(s[0]) then Split(s[1..])
    else
      var n := WordLength(s);
      var w := s[..n];
      var rest := Split(s[n..]);
      assert IsWord(w);
      assert forall k :: 1 <= k < |[w] + rest| ==> ([w] + rest)[k] == rest[k - 1];
      [w] + rest
  }

  /** `s.split()` is empty exactly when `s` has nothing but whitespace. */
  lemma {:induction false} SplitEmpty(s: string)
    ensures Split(s) == [] <==> AllSpace(s)
  {
    if s != [] && IsSpace(s[0]) {
      SplitEmpty(s[1..]);
      assert forall i :: 1 <= i < |s| ==> s[i] == s[1..][i - 1];
    }
  }

  /**
   * `' '.join(ws)`: the words in order with one space between neighbours.
   * A join of words is empty exactly when there are none; it starts with the
   * first word and ends with the last.
   */
  function Join(ws: seq<string>): (r: string)
    ensures AllWords(ws) ==> (r == "" <==> ws == [])
    ensures ws != [] ==> |ws[0]| <= |r| && r[..|ws[0]|] == ws[0]
    ensures ws != [] ==> |ws[|ws| - 1]| <= |r| && r[|r| - |ws[|ws| - 1]|..] == ws[|ws| - 1]
  {
    if ws == [] then ""
    else if |ws| == 1 then ws[0]
    else
      assert IsWord(ws[0]) || !AllWords(ws);
      var rest := Join(ws[1..]);
      assert ws[1..][|ws[1..]| - 1] == ws[|ws| - 1];
      var r := ws[0] + " " + rest;
      assert r[|r| - |rest|..] == rest;
      r
  }

  /** Appending a word to a non-empty join adds exactly one `' '` and the word. */
  lemma {:induction false} JoinSnoc(ws: seq<string>, w: string)
    requires ws != []
    ensures Join(ws + [w]) == Join(ws) + " " + w
  {
    SnocParts(ws, w);
    JoinCons(ws + [w]);
    if |ws| > 1 {
      JoinSnoc(ws[1..], w);
      JoinCons(ws);
      SpaceJoinAssoc(ws[0], Join(ws[1..]), w);
    }
  }

  lemma SnocParts<T>(xs: seq<T>, x: T)
    requires xs != []
    ensures (xs + [x])[0] == xs[0] && (xs + [x])[1..] == xs[1..] + [x]
  {
  }

  lemma SpaceJoinAssoc(a: string, b: string, c: string)
    ensures a + " " + (b + " " + c) == a + " " + b + " " + c
  {
  }

  /** Helper: a join of two or more words is the first word, one space, and the join of the rest. */
  lemma JoinCons(ws: seq<string>)
    requires |ws| > 1
    ensures Join(ws) == ws[0] + " " + Join(ws[1..])
  {
  }

  lemma {:induction false} SplitLeadingSpace(c: char, s: string)
    requires IsSpace(c)
    ensures Split([c] + s) == Split(s)
  {
    assert ([c] + s)[1..] == s;
  }

  lemma {:induction false} SplitWordThen(w: string, rest: string)
    requires IsWord(w)
    requires rest == [] || IsSpace(rest[0])
    ensures Split(w + rest) == [w] + Split(rest)
  {
    var s := w + rest;
    assert s[0] == w[0];
    WordLengthOfWord(w, rest);
    assert s[..|w|] == w && s[|w|..] == rest;
  }

  lemma {:induction false} WordLengthOfWord(w: string, rest: string)
    requires forall i :: 0 <= i < |w| ==> !IsSpace(w[i])
    requires rest == [] || IsSpace(rest[0])
    ensures WordLength(w + rest) == |w|
    decreases |w|
  {
    if w != [] {
      assert (w + rest)[1..] == w[1..] + rest;
      WordLengthOfWord(w[1..], rest);
    }
  }

  /** Splitting a space-joined list of words gives the words back. */
  lemma {:induction false} SplitJoin(ws: seq<string>)
    requires AllWords(ws)
    ensures Split(Join(ws)) == ws
  {
    if ws == [] {
    } else if |ws| == 1 {
      SplitWordThen(ws[0], "");
      assert ws[0] + "" == ws[0];
    } else {
      var tail := ws[1..];
      assert AllWords(tail) by {
        forall k | 0 <= k < |tail| ensures IsWord(tail[k]) { assert tail[k] == ws[k + 1]; }
      }
      assert IsWord(ws[0]);
      SplitJoin(tail);
      assert ws[0] + " " + Join(tail) == ws[0] + (" " + Join(tail));
      SplitWordThen(ws[0], " " + Join(tail));
      SplitLeadingSpace(' ', Join(tail));
    }
  }

  /** A single word splits into itself. */
  lemma SplitWord(w: string)
    requires IsWord(w)
    ensures Split(w) == [w]
  {
    SplitWordThen(w, "");
    assert w + "" == w;
  }

  lemma {:induction false} WordLengthAppend(a: string, c: char, b: string)
    requires IsSpace(c)
    ensures WordLength(a + [c] + b) == WordLength(a)
    decreases |a|
  {
    if a != [] && !IsSpace(a[0]) {
      assert (a + [c] + b)[1..] == a[1..] + [c] + b;
      WordLengthAppend(a[1..], c, b);
    }
  }

  /**
   * Splitting at a whitespace character: the tokens of `a`, then those of `b`.
   * So the tokens on either side of a space never merge.
   */
  lemma {:induction false} SplitAtSpace(a: string, c: char, b: string)
    requires IsSpace(c)
    ensures Split(a + [c] + b) == Split(a) + Split(b)
    decreases |a|
  {
    var s := a + [c] + b;
    if a == [] {
      assert s == [c] + b;
      SplitLeadingSpace(c, b);
    } else if IsSpace(a[0]) {
      assert s[1..] == a[1..] + [c] + b;
      SplitAtSpace(a[1..], c, b);
    } else {
      WordLengthAppend(a, c, b);
      var n := WordLength(a);
      assert s[..n] == a[..n];
      assert s[n..] == a[n..] + [c] + b;
      SplitAtSpace(a[n..], c, b);
    }
  }

  predicate IsDigit(c: char) {
    '0' <= c <= '9'
  }

  /**
   * The digit part of a decimal literal as Python's `int()` reads it: ASCII
   * digits, where one underscore may stand between two digits.
   */
  predicate WellFormedDigits(s: string) {
    && |s| > 0 && IsDigit(s[0]) && IsDigit(s[|s| - 1])
    && (forall i :: 0 <= i < |s| ==> IsDigit(s[i]) || s[i] == '_')
    && (forall i :: 0 <= i < |s| - 1 && s[i] == '_' ==> s[i + 1] != '_')
  }

  /** The value of a run of digits and underscores, read left to right. */
  function DigitsValue(s: string): nat {
    if s == [] then 0
    else
      var last := s[|s| - 1];
      if IsDigit(last) then 10 * DigitsValue(s[..|s| - 1]) + (last as int - '0' as int)
      else DigitsValue(s[..|s| - 1])
  }

  /** An integer literal `int()` accepts: an optional sign, then well-formed digits. */
  predicate IntLiteral(t: string) {
    || WellFormedDigits(t)
    || (|t| > 1 && (t[0] == '+' || t[0] == '-') && WellFormedDigits(t[1..]))
  }

  /** `int(t)` for a whitespace-free token `t`: None where Python raises ValueError. */
  function ParseInt(t: string): (r: Option<int>)
    ensures r.Some? <==> IntLiteral(t)
    ensures r.Some? ==> exists i :: 0 <= i < |t| && IsDigit(t[i])
    ensures r.Some? ==> forall i :: 0 <= i < |t| ==>
                          IsDigit(t[i]) || (0 < i < |t| - 1 && t[i] == '_') || (i == 0 && (t[i] == '+' || t[i] == '-'))
  {
    if |t| > 0 && (t[0] == '+' || t[0] == '-') then
      var body := t[1..];
      if WellFormedDigits(body) then
        assert body[0] == t[1];
        assert forall i :: 1 <= i < |t| ==> t[i] == body[i - 1];
        var v: int := DigitsValue(body);
        Some(if t[0] == '-' then -v else v)
      else None
    else if WellFormedDigits(t) then
      Some(DigitsValue(t))
    else None
  }

  /** The decimal digits of `n`, as Python's `str(n)` writes them for `n >= 0`. */
  function ShowNat(n: nat): (r: string)
    ensures |r| > 0 && forall i :: 0 <= i < |r| ==> IsDigit(r[i])
  {
    var d := ['0' + (n % 10) as char];
    if n < 10 then d else ShowNat(n / 10) + d
  }

  /** `str(n)`. */
  function ShowInt(n: int): string {
    if n < 0 then "-" + ShowNat(-n) else ShowNat(n)
  }

  lemma {:induction false} DigitsValueShowNat(n: nat)
    ensures DigitsValue(ShowNat(n)) == n
  {
    var s := ShowNat(n);
    if n >= 10 {
      DigitsValueShowNat(n / 10);
      assert s[..|s| - 1] == ShowNat(n / 10);
    }
  }

  lemma DigitsWellFormed(s: string)
    requires |s| > 0 && forall i :: 0 <= i < |s| ==> IsDigit(s[i])
    ensures WellFormedDigits(s)
  {
  }

  /** The decimal form of an integer is a single token. */
  lemma ShowIntIsWord(n: int)
    ensures IsWord(ShowInt(n))
  {
    var t := ShowInt(n);
    if n < 0 {
      assert forall j :: 1 <= j < |t| ==> t[j] == ShowNat(-n)[j - 1];
    }
  }

  /** Helper: unsigned well-formed digits read as their decimal value. */
  lemma ParseIntUnsigned(d: string)
    requires WellFormedDigits(d)
    ensures ParseInt(d) == Some(DigitsValue(d))
  {
    assert IsDigit(d[0]);
  }

  /** A leading `+` changes nothing; after it, only well-formed digits are accepted. */
  lemma ParseIntPlus(t: string)
    ensures ParseInt("+" + t) == if WellFormedDigits(t) then ParseInt(t) else None
  {
    var s := "+" + t;
    assert s[0] == '+' && s[1..] == t;
    if WellFormedDigits(t) {
      ParseIntUnsigned(t);
    } else if WellFormedDigits(s) {
      assert IsDigit(s[0]);
    }
  }

  /** A leading `-` negates the value; after it, only well-formed digits are accepted. */
  lemma ParseIntMinus(t: string)
    ensures ParseInt("-" + t) == if WellFormedDigits(t) then Some(-ParseInt(t).value) else None
  {
    var s := "-" + t;
    assert s[0] == '-' && s[1..] == t;
    if WellFormedDigits(t) {
      ParseIntUnsigned(t);
    } else if WellFormedDigits(s) {
      assert IsDigit(s[0]);
    }
  }

  lemma {:induction false} DigitsValueLeadingZero(d: string)
    ensures DigitsValue("0" + d) == DigitsValue(d)
    decreases |d|
  {
    var s := "0" + d;
    if d != [] {
      assert s[..|s| - 1] == "0" + d[..|d| - 1];
      assert s[|s| - 1] == d[|d| - 1];
      DigitsValueLeadingZero(d[..|d| - 1]);
    }
  }

  /** A leading zero does not change the value: `int("026") == int("26")`. */
  lemma ParseIntLeadingZero(d: string)
    requires WellFormedDigits(d)
    ensures ParseInt("0" + d) == ParseInt(d)
  {
    var s := "0" + d;
    assert forall i :: 1 <= i < |s| ==> s[i] == d[i - 1];
    assert WellFormedDigits(s);
    ParseIntUnsigned(s);
    ParseIntUnsigned(d);
    DigitsValueLeadingZero(d);
  }

  lemma {:induction false} DigitsValueUnderscore(a: string, b: string)
    ensures DigitsValue(a + "_" + b) == DigitsValue(a + b)
    decreases |b|
  {
    var s, t := a + "_" + b, a + b;
    if b == [] {
      assert s[..|s| - 1] == a && t == a;
    } else {
      var b' := b[..|b| - 1];
      assert s[..|s| - 1] == a + "_" + b' && s[|s| - 1] == b[|b| - 1];
      assert t[..|t| - 1] == a + b' && t[|t| - 1] == b[|b| - 1];
      DigitsValueUnderscore(a, b');
    }
  }

  /** An underscore between two digit groups does not change the value: `int("2_6") == int("26")`. */
  lemma ParseIntUnderscore(a: string, b: string)
    requires WellFormedDigits(a) && WellFormedDigits(b)
    ensures ParseInt(a + "_" + b) == ParseInt(a + b)
  {
    var s, t := a + "_" + b, a + b;
    assert forall i :: 0 <= i < |a| ==> s[i] == a[i] && t[i] == a[i];
    assert forall i :: |a| < i < |s| ==> s[i] == b[i - |a| - 1];
    assert forall i :: |a| <= i < |t| ==> t[i] == b[i - |a|];
    assert s[|a|] == '_';
    assert WellFormedDigits(s) by {
      forall i | 0 <= i < |s| - 1 && s[i] == '_' ensures s[i + 1] != '_' {
        if i == |a| {
          assert IsDigit(b[0]);
        }
      }
    }
    assert WellFormedDigits(t);
    ParseIntUnsigned(s);
    ParseIntUnsigned(t);
    DigitsValueUnderscore(a, b);
  }

  /** `int(str(n)) == n`: the parser reads back every integer written in decimal. */
  lemma ParseIntShowInt(n: int)
    ensures ParseInt(ShowInt(n)) == Some(n)
  {
    if n < 0 {
      var d := ShowNat(-n);
      DigitsWellFormed(d);
      ParseIntMinus(d);
      ParseIntUnsigned(d);
      DigitsValueShowNat(-n);
      assert DigitsValue(d) == -n;
      assert ShowInt(n) == "-" + d;
    } else {
      var d := ShowNat(n);
      DigitsWellFormed(d);
      ParseIntUnsigned(d);
      DigitsValueShowNat(n);
      assert ShowInt(n) == d;
    }
  }
}
