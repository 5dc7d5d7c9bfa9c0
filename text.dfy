/** String helpers: ASCII lower-casing, joining and splitting on a separator,
    fixed-width decimal digits. Strings are sequences of characters. */
module Text {

  /** `String.ToLower` restricted to ASCII: upper-case letters map to lower case,
      every other character is left alone. */
  function LowerChar(c: char): char
  {
    if 'A' <= c <= 'Z' then (c as int + 32) as char else c
  }

  function Lower(s: string): string
  {
    if s == [] then [] else [LowerChar(s[0])] + Lower(s[1..])
  }

  lemma {:induction false} LowerLength(s: string)
    ensures |Lower(s)| == |s|
    ensures forall i :: 0 <= i < |s| ==> Lower(s)[i] == LowerChar(s[i])
  {
    if s != [] {
      LowerLength(s[1..]);
    }
  }

  /** Lower-casing works character by character, so it distributes over concatenation. */
  lemma {:induction false} LowerConcat(a: string, b: string)
    ensures Lower(a + b) == Lower(a) + Lower(b)
  {
    if a == [] {
      assert a + b == b;
    } else {
      assert (a + b)[1..] == a[1..] + b;
      LowerConcat(a[1..], b);
    }
  }

  /** Lower-casing twice is lower-casing once. */
  lemma {:induction false} LowerIdempotent(s: string)
    ensures Lower(Lower(s)) == Lower(s)
  {
    if s != [] {
      LowerIdempotent(s[1..]);
      assert Lower(s)[1..] == Lower(s[1..]);
    }
  }

  /** Lower-casing keeps every character that is not an upper-case letter in
      place; in particular the separators ',' and ':' do not move. */
  lemma LowerKeepsNonLetters(s: string, i: int)
    requires 0 <= i < |s| && !('A' <= s[i] <= 'Z')
    ensures |Lower(s)| == |s| && Lower(s)[i] == s[i]
  {
    LowerLength(s);
  }

  /** The items joined with one separator between neighbours and none at the end. */
  function Join(items: seq<string>, sep: char): string
  {
    if |items| == 0 then ""
    else if |items| == 1 then items[0]
    else items[0] + [sep] + Join(items[1..], sep)
  }

  /** Every item followed by the separator, including the last. */
  function Terminated(items: seq<string>, sep: char): string
  {
    if items == [] then "" else items[0] + [sep] + Terminated(items[1..], sep)
  }

  lemma {:induction false} TerminatedConcat(xs: seq<string>, ys: seq<string>, sep: char)
    ensures Terminated(xs + ys, sep) == Terminated(xs, sep) + Terminated(ys, sep)
  {
    if xs == [] {
      assert xs + ys == ys;
    } else {
      assert (xs + ys)[1..] == xs[1..] + ys;
      TerminatedConcat(xs[1..], ys, sep);
    }
  }

  lemma TerminatedAround(a: string, xs: seq<string>, c: string, sep: char)
    ensures Terminated([a] + xs + [c], sep) == a + [sep] + Terminated(xs, sep) + c + [sep]
  {
    TerminatedConcat([a], xs, sep);
    TerminatedConcat([a] + xs, [c], sep);
    assert Terminated([a][1..], sep) == "";
    assert Terminated([c][1..], sep) == "";
  }

  /** Joining one more item adds exactly one separator and the item at the end. */
  lemma {:induction false} JoinSnoc(items: seq<string>, x: string, sep: char)
    requires |items| > 0
    ensures Join(items + [x], sep) == Join(items, sep) + [sep] + x
  {
    if |items| == 1 {
      assert items + [x] == [items[0], x];
    } else {
      assert (items + [x])[1..] == items[1..] + [x];
      JoinSnoc(items[1..], x, sep);
    }
  }

  /** A run of terminated items followed by a join is the join of all of them. */
  lemma {:induction false} TerminatedJoin(xs: seq<string>, ys: seq<string>, sep: char)
    requires |ys| > 0
    ensures Terminated(xs, sep) + Join(ys, sep) == Join(xs + ys, sep)
  {
    if xs != [] {
      TerminatedJoin(xs[1..], ys, sep);
      assert (xs + ys)[1..] == xs[1..] + ys;
    } else {
      assert xs + ys == ys;
    }
  }

  /** Position of the first `sep` in `s`, or `|s|` when there is none. */
  function IndexOf(s: string, sep: char): (i: nat)
    ensures i <= |s|
    ensures i < |s| ==> s[i] == sep
    ensures forall k :: 0 <= k < i ==> s[k] != sep
  {
    if s == [] then 0
    else if s[0] == sep then 0
    else 1 + IndexOf(s[1..], sep)
  }

  /** The pieces of `s` between occurrences of `sep`. */
  function Split(s: string, sep: char): seq<string>
    decreases |s|
  {
    var i := IndexOf(s, sep);
    if i == |s| then [s] else [s[..i]] + Split(s[i + 1..], sep)
  }

  /** Splitting a join gives back the items, as long as no item holds the separator. */
  lemma {:induction false} SplitJoin(items: seq<string>, sep: char)
    requires |items| > 0
    requires forall k :: 0 <= k < |items| ==> sep !in items[k]
    ensures Split(Join(items, sep), sep) == items
  {
    var x := items[0];
    assert sep !in x;
    if |items| == 1 {
      assert IndexOf(x, sep) == |x|;
    } else {
      var rest := Join(items[1..], sep);
      var s := x + [sep] + rest;
      assert IndexOf(s, sep) == |x| by {
        assert s[|x|] == sep;
        forall k | 0 <= k < |x| ensures s[k] != sep {
          assert s[k] == x[k];
        }
      }
      assert s[..|x|] == x;
      assert s[|x| + 1..] == rest;
      SplitJoin(items[1..], sep);
    }
  }

  function Pow10(w: nat): (r: nat)
    ensures r > 0
  {
    if w == 0 then 1 else 10 * Pow10(w - 1)
  }

  function DigitChar(d: nat): char
    requires d < 10
  {
    ('0' as int + d) as char
  }

  function DigitValue(c: char): nat
  {
    if '0' <= c <= '9' then c as int - '0' as int else 0
  }

  /** The last `w` decimal digits of `n`, zero-padded on the left (the `yyyy`,
      `MM`, `dd`, ... parts of a .NET date format). */
  function Digits(n: nat, w: nat): (s: string)
    ensures |s| == w
  {
    if w == 0 then "" else Digits(n / 10, w - 1) + [DigitChar(n % 10)]
  }

  function ParseDigits(s: string): nat
  {
    if s == [] then 0 else 10 * ParseDigits(s[..|s| - 1]) + DigitValue(s[|s| - 1])
  }

  /** Reading the digits back gives the number, when it fits in the width. */
  lemma {:induction false} DigitsRoundTrip(n: nat, w: nat)
    requires n < Pow10(w)
    ensures ParseDigits(Digits(n, w)) == n
  {
    if w > 0 {
      var s := Digits(n, w);
      assert s[..|s| - 1] == Digits(n / 10, w - 1);
      DigitsRoundTrip(n / 10, w - 1);
    }
  }
}
