/** The text operations the keys and records are built with. Strings are sequences of characters. */
module Text {

  /* ---------- decimal numbers ---------- */

  function Digit(d: nat): (c: char)
    requires d < 10
  {
    ['0', '1', '2', '3', '4', '5', '6', '7', '8', '9'][d]
  }

  predicate IsDigit(c: char) {
    '0' <= c <= '9'
  }

  function DigitValue(c: char): nat
    requires IsDigit(c)
  {
    c as int - '0' as int
  }

  predicate AllDigits(s: string) {
    forall c :: c in s ==> IsDigit(c)
  }

  function Pow10(w: nat): nat {
    if w == 0 then 1 else 10 * Pow10(w - 1)
  }

  /** The last `w` decimal digits of `x`, with leading zeros. */
  function Pad(x: nat, w: nat): (s: string)
    ensures |s| == w && AllDigits(s)
  {
    if w == 0 then "" else Pad(x / 10, w - 1) + [Digit(x % 10)]
  }

  /** The decimal representation without leading zeros. */
  function Decimal(x: nat): (s: string)
    ensures |s| >= 1 && AllDigits(s)
  {
    if x < 10 then [Digit(x)] else Decimal(x / 10) + [Digit(x % 10)]
  }

  function ParseNat(s: string): nat
    requires AllDigits(s)
  {
    if s == "" then 0 else 10 * ParseNat(s[..|s| - 1]) + DigitValue(s[|s| - 1])
  }

  lemma ParseNatAppend(s: string, d: nat)
    requires AllDigits(s) && d < 10
    ensures AllDigits(s + [Digit(d)]) && ParseNat(s + [Digit(d)]) == 10 * ParseNat(s) + d
  {
    assert (s + [Digit(d)])[..|s|] == s;
  }

  lemma {:induction false} ParsePad(x: nat, w: nat)
    requires x < Pow10(w)
    ensures ParseNat(Pad(x, w)) == x
  {
    if w > 0 {
      hide ParseNat, Digit;
      ParsePad(x / 10, w - 1);
      ParseNatAppend(Pad(x / 10, w - 1), x % 10);
    }
  }

  lemma {:induction false} ParseDecimal(x: nat)
    ensures ParseNat(Decimal(x)) == x
  {
    if 10 <= x {
      ParseDecimal(x / 10);
      assert Decimal(x)[..|Decimal(x)| - 1] == Decimal(x / 10);
    } else {
      assert Decimal(x)[..0] == "";
    }
  }

  /* ---------- byte order ---------- */

  predicate LexLess(s: string, t: string) {
    && t != ""
    && (s == "" || s[0] < t[0] || (s[0] == t[0] && LexLess(s[1..], t[1..])))
  }

  lemma {:induction false} LexIrreflexive(s: string)
    ensures !LexLess(s, s)
  {
    if s != "" {
      LexIrreflexive(s[1..]);
    }
  }

  lemma {:induction false} LexCommonPrefix(p: string, s: string, t: string)
    ensures LexLess(p + s, p + t) <==> LexLess(s, t)
  {
    if p == "" {
      assert p + s == s && p + t == t;
    } else {
      LexCommonPrefix(p[1..], s, t);
      assert (p + s)[1..] == p[1..] + s && (p + t)[1..] == p[1..] + t;
    }
  }

  /** Zero padding makes the byte order of two numbers their numeric order, whatever follows them. */
  lemma {:induction false} PadOrder(x: nat, y: nat, w: nat, s: string, t: string)
    requires x < y < Pow10(w)
    ensures LexLess(Pad(x, w) + s, Pad(y, w) + t)
    ensures !LexLess(Pad(y, w) + t, Pad(x, w) + s)
  {
    var dx, dy := [Digit(x % 10)] + s, [Digit(y % 10)] + t;
    assert Pad(x, w) + s == Pad(x / 10, w - 1) + dx;
    assert Pad(y, w) + t == Pad(y / 10, w - 1) + dy;
    if x / 10 < y / 10 {
      PadOrder(x / 10, y / 10, w - 1, dx, dy);
    } else {
      LexCommonPrefix(Pad(x / 10, w - 1), dx, dy);
      LexCommonPrefix(Pad(x / 10, w - 1), dy, dx);
    }
  }

  /* ---------- splitting and trimming ---------- */

  /** Go's `strings.Split` for a one-character separator. */
  function Split(s: string, c: char): (parts: seq<string>)
    ensures |parts| >= 1
  {
    if s == "" then [""]
    else if s[0] == c then [""] + Split(s[1..], c)
    else var rest := Split(s[1..], c); [[s[0]] + rest[0]] + rest[1..]
  }

  lemma {:induction false} SplitNone(s: string, c: char)
    requires c !in s
    ensures Split(s, c) == [s]
  {
    if s != "" {
      SplitNone(s[1..], c);
      assert s == [s[0]] + s[1..];
    }
  }

  lemma {:induction false} SplitFirst(a: string, c: char, b: string)
    requires c !in a
    ensures Split(a + [c] + b, c) == [a] + Split(b, c)
  {
    var s := a + [c] + b;
    if a == "" {
      assert s[1..] == b;
    } else {
      SplitFirst(a[1..], c, b);
      assert s[1..] == a[1..] + [c] + b;
      assert a == [a[0]] + a[1..];
    }
  }

  /** No part of a split contains the separator. */
  lemma {:induction false} SplitParts(s: string, c: char, i: nat)
    requires i < |Split(s, c)|
    ensures c !in Split(s, c)[i]
  {
    if s != "" {
      var rest := Split(s[1..], c);
      if s[0] == c {
        if 0 < i { SplitParts(s[1..], c, i - 1); }
      } else {
        SplitParts(s[1..], c, i);
      }
    }
  }

  function TrimLeft(s: string, cut: set<char>): string {
    if s != "" && s[0] in cut then TrimLeft(s[1..], cut) else s
  }

  function TrimRight(s: string, cut: set<char>): string {
    if s != "" && s[|s| - 1] in cut then TrimRight(s[..|s| - 1], cut) else s
  }

  function Trim(s: string, cut: set<char>): string {
    TrimRight(TrimLeft(s, cut), cut)
  }

  /** Trimming leaves nothing to trim at either end. */
  lemma {:induction false} TrimEnds(s: string, cut: set<char>)
    ensures var t := Trim(s, cut); t != "" ==> t[0] !in cut && t[|t| - 1] !in cut
  {
    TrimLeftEnd(s, cut);
    TrimRightEnd(TrimLeft(s, cut), cut);
  }

  lemma {:induction false} TrimLeftEnd(s: string, cut: set<char>)
    ensures var t := TrimLeft(s, cut); t != "" ==> t[0] !in cut
  {
    if s != "" && s[0] in cut {
      TrimLeftEnd(s[1..], cut);
    }
  }

  lemma {:induction false} TrimRightEnd(s: string, cut: set<char>)
    ensures TrimRight(s, cut) <= s
    ensures var t := TrimRight(s, cut); t != "" ==> t[|t| - 1] !in cut
  {
    if s != "" && s[|s| - 1] in cut {
      TrimRightEnd(s[..|s| - 1], cut);
    }
  }

  predicate AllIn(s: string, cut: set<char>) {
    forall c :: c in s ==> c in cut
  }

  /** Neither end is a character to trim. */
  predicate Trimmed(s: string, cut: set<char>) {
    s != "" ==> s[0] !in cut && s[|s| - 1] !in cut
  }

  lemma {:induction false} TrimLeftPadded(front: string, s: string, cut: set<char>)
    requires AllIn(front, cut) && (s != "" ==> s[0] !in cut)
    ensures TrimLeft(front + s, cut) == s
  {
    if front == "" {
      assert front + s == s;
    } else {
      assert front[0] in front && (front + s)[0] == front[0] && (front + s)[1..] == front[1..] + s;
      TrimLeftPadded(front[1..], s, cut);
    }
  }

  lemma {:induction false} TrimRightPadded(s: string, back: string, cut: set<char>)
    requires AllIn(back, cut) && (s != "" ==> s[|s| - 1] !in cut)
    ensures TrimRight(s + back, cut) == s
  {
    if back == "" {
      assert s + back == s;
    } else {
      var init := back[..|back| - 1];
      assert back[|back| - 1] in back && (s + back)[|s + back| - 1] == back[|back| - 1];
      assert (s + back)[..|s + back| - 1] == s + init;
      TrimRightPadded(s, init, cut);
    }
  }

  /** Trimming removes exactly what surrounds a trimmed text. */
  lemma TrimPadded(front: string, s: string, back: string, cut: set<char>)
    requires AllIn(front, cut) && AllIn(back, cut) && Trimmed(s, cut)
    ensures Trim(front + s + back, cut) == s
  {
    if s == "" {
      assert front + s + back == front + back + "";
      TrimLeftPadded(front + back, "", cut);
    } else {
      assert front + s + back == front + (s + back);
      TrimLeftPadded(front, s + back, cut);
      TrimRightPadded(s, back, cut);
    }
  }

  /** Go's `filepath.Base` for a path that does not end in a separator. */
  function Base(path: string): string {
    if path == "" || path[|path| - 1] == '/' then ""
    else Base(path[..|path| - 1]) + [path[|path| - 1]]
  }

  lemma {:induction false} BaseOfJoin(dir: string, name: string)
    requires '/' !in name
    ensures Base(dir + "/" + name) == name
  {
    var path := dir + "/" + name;
    if name != "" {
      var init := name[..|name| - 1];
      BaseOfJoin(dir, init);
      assert path[..|path| - 1] == dir + "/" + init;
      assert name == init + [name[|name| - 1]];
    }
  }
}
