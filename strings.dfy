/**
 * The parts of Go's `strings` and `fmt` packages that the mail-to-post
 * transformation relies on: `strings.HasPrefix`, `strings.ReplaceAll`
 * (for a non-empty pattern) and the `%03d` verb.  `Split` and `Join`
 * are the reference reading of `ReplaceAll`: replacing every occurrence
 * is cutting the text at the occurrences and gluing the pieces back
 * together with the replacement.
 */
module GoStrings {

  predicate HasPrefix(s: string, prefix: string)
  {
    |prefix| <= |s| && s[..|prefix|] == prefix
  }

  /** `pat` occurs in `s` starting at index `i`. */
  predicate OccursAt(s: string, pat: string, i: int)
  {
    0 <= i && i + |pat| <= |s| && s[i..i + |pat|] == pat
  }

  predicate Contains(s: string, pat: string)
  {
    exists i :: 0 <= i <= |s| - |pat| && OccursAt(s, pat, i)
  }

  /**
   * `strings.ReplaceAll(s, pat, rep)`: every leftmost, non-overlapping
   * occurrence of `pat` is replaced by `rep`, scanning left to right.
   */
  function ReplaceAll(s: string, pat: string, rep: string): string
    requires |pat| > 0
    decreases |s|
  {
    if |s| < |pat| then s
    else if s[..|pat|] == pat then rep + ReplaceAll(s[|pat|..], pat, rep)
    else [s[0]] + ReplaceAll(s[1..], pat, rep)
  }

  /** `strings.Split(s, sep)`: the pieces between leftmost, non-overlapping separators. */
  function Split(s: string, sep: string): (pieces: seq<string>)
    requires |sep| > 0
    ensures |pieces| >= 1
    decreases |s|
  {
    if |s| < |sep| then [s]
    else if s[..|sep|] == sep then [[]] + Split(s[|sep|..], sep)
    else
      var rest := Split(s[1..], sep);
      [[s[0]] + rest[0]] + rest[1..]
  }

  /** Concatenation regroups freely. */
  lemma ConcatAssoc<T>(a: seq<T>, b: seq<T>, c: seq<T>)
    ensures a + (b + c) == (a + b) + c
  {
  }

  /** `strings.Join(pieces, sep)`. */
  function Join(pieces: seq<string>, sep: string): string
    requires |pieces| >= 1
    decreases |pieces|
  {
    if |pieces| == 1 then pieces[0] else pieces[0] + sep + Join(pieces[1..], sep)
  }

  lemma JoinCons(c: char, pieces: seq<string>, sep: string)
    requires |pieces| >= 1
    ensures Join([[c] + pieces[0]] + pieces[1..], sep) == [c] + Join(pieces, sep)
  {
    var r := [[c] + pieces[0]] + pieces[1..];
    if |pieces| > 1 {
      assert r[1..] == pieces[1..];
    }
  }

  /** Cutting at the separators and gluing back with the same separator gives the text back. */
  lemma {:induction false} SplitJoin(s: string, sep: string)
    requires |sep| > 0
    ensures Join(Split(s, sep), sep) == s
    decreases |s|
  {
    if |s| < |sep| {
    } else if s[..|sep|] == sep {
      var tail := s[|sep|..];
      SplitJoin(tail, sep);
      var rest := Split(tail, sep);
      var pieces := [[]] + rest;
      assert Split(s, sep) == pieces;
      assert pieces[1..] == rest;
      assert Join(pieces, sep) == pieces[0] + sep + Join(rest, sep);
      assert pieces[0] + sep + tail == sep + tail;
      assert s == sep + tail;
    } else {
      var tail := s[1..];
      SplitJoin(tail, sep);
      var rest := Split(tail, sep);
      JoinCons(s[0], rest, sep);
      assert Split(s, sep) == [[s[0]] + rest[0]] + rest[1..];
      assert s == [s[0]] + tail;
    }
  }

  /** The first piece of a split is a prefix of the text. */
  lemma {:induction false} SplitFirstIsPrefix(s: string, sep: string)
    requires |sep| > 0
    ensures HasPrefix(s, Split(s, sep)[0])
    decreases |s|
  {
    if |s| >= |sep| && s[..|sep|] != sep {
      SplitFirstIsPrefix(s[1..], sep);
      var first := Split(s[1..], sep)[0];
      assert Split(s, sep)[0] == [s[0]] + first;
      assert s[..|first| + 1] == [s[0]] + s[1..][..|first|];
    }
  }

  /**
   * A character followed by a separator-free piece is separator-free,
   * when the text it begins does not begin with the separator.
   */
  lemma ConsFree(c: char, piece: string, sep: string, s: string)
    requires |sep| > 0
    requires !Contains(piece, sep)
    requires HasPrefix(s, [c] + piece)
    requires |s| >= |sep| && s[..|sep|] != sep
    ensures !Contains([c] + piece, sep)
  {
    var head := [c] + piece;
    forall i | OccursAt(head, sep, i) ensures false {
      if i != 0 {
        assert piece[i - 1..i - 1 + |sep|] == head[i..i + |sep|];
        assert OccursAt(piece, sep, i - 1);
      }
    }
  }

  /** No piece of a split contains the separator. */
  lemma {:induction false} SplitPiecesFree(s: string, sep: string)
    requires |sep| > 0
    ensures forall k :: 0 <= k < |Split(s, sep)| ==> !Contains(Split(s, sep)[k], sep)
    decreases |s|
  {
    var pieces := Split(s, sep);
    if |s| < |sep| {
      forall i | OccursAt(s, sep, i) ensures false { }
    } else if s[..|sep|] == sep {
      SplitPiecesFree(s[|sep|..], sep);
      var rest := Split(s[|sep|..], sep);
      assert pieces == [[]] + rest;
      assert !Contains([], sep);
      forall k | 1 <= k < |pieces| ensures !Contains(pieces[k], sep) {
        assert pieces[k] == rest[k - 1];
      }
    } else {
      SplitPiecesFree(s[1..], sep);
      SplitFirstIsPrefix(s[1..], sep);
      var rest := Split(s[1..], sep);
      var head := [s[0]] + rest[0];
      assert pieces == [head] + rest[1..];
      assert HasPrefix(s, head) by {
        assert s[..|head|] == [s[0]] + s[1..][..|rest[0]|];
      }
      ConsFree(s[0], rest[0], sep, s);
      forall k | 1 <= k < |pieces| ensures !Contains(pieces[k], sep) {
        assert pieces[k] == rest[k];
      }
    }
  }

  /** A text that does not contain the separator is its own only piece. */
  lemma {:induction false} SplitAbsent(s: string, sep: string)
    requires |sep| > 0
    requires !Contains(s, sep)
    ensures Split(s, sep) == [s]
    decreases |s|
  {
    if |s| < |sep| {
    } else if s[..|sep|] == sep {
      assert OccursAt(s, sep, 0);
    } else {
      assert !Contains(s[1..], sep) by {
        forall i | OccursAt(s[1..], sep, i) ensures false {
          assert s[1..][i..i + |sep|] == s[i + 1..i + 1 + |sep|];
          assert OccursAt(s, sep, i + 1);
        }
      }
      SplitAbsent(s[1..], sep);
      assert s == [s[0]] + s[1..];
    }
  }

  /** A separator-free piece followed by the separator is split off as the first piece. */
  lemma {:induction false} SplitAfterPiece(p: string, sep: string, rest: string)
    requires |sep| == 1
    requires sep[0] !in p
    ensures Split(p + sep + rest, sep) == [p] + Split(rest, sep)
    decreases |p|
  {
    var s := p + sep + rest;
    if p == [] {
      assert s == sep + rest;
      assert s[..1] == sep;
      assert s[1..] == rest;
    } else {
      assert s[..1] != sep by { assert s[0] == p[0]; }
      assert s[1..] == p[1..] + sep + rest;
      SplitAfterPiece(p[1..], sep, rest);
      assert [s[0]] + p[1..] == p;
    }
  }

  /** `ReplaceAll` is Split followed by Join with the replacement. */
  lemma {:induction false} ReplaceAllIsSplitJoin(s: string, pat: string, rep: string)
    requires |pat| > 0
    ensures ReplaceAll(s, pat, rep) == Join(Split(s, pat), rep)
    decreases |s|
  {
    if |s| < |pat| {
    } else if s[..|pat|] == pat {
      ReplaceAllIsSplitJoin(s[|pat|..], pat, rep);
      var rest := Split(s[|pat|..], pat);
      assert ([[]] + rest)[1..] == rest;
    } else {
      ReplaceAllIsSplitJoin(s[1..], pat, rep);
      JoinCons(s[0], Split(s[1..], pat), rep);
    }
  }

  /** When the pattern does not occur, `ReplaceAll` changes nothing. */
  lemma ReplaceAllAbsent(s: string, pat: string, rep: string)
    requires |pat| > 0
    requires !Contains(s, pat)
    ensures ReplaceAll(s, pat, rep) == s
  {
    ReplaceAllIsSplitJoin(s, pat, rep);
    SplitAbsent(s, pat);
  }

  /** Replacing a pattern by itself changes nothing. */
  lemma ReplaceAllIdentity(s: string, pat: string)
    requires |pat| > 0
    ensures ReplaceAll(s, pat, pat) == s
  {
    ReplaceAllIsSplitJoin(s, pat, pat);
    SplitJoin(s, pat);
  }

  /** Character-by-character substitution of `c` by `rep`. */
  function ExpandChar(s: string, c: char, rep: string): (r: string)
    decreases |s|
  {
    if s == [] then [] else (if s[0] == c then rep else [s[0]]) + ExpandChar(s[1..], c, rep)
  }

  /** For a one-character pattern, `ReplaceAll` is character-by-character substitution. */
  lemma {:induction false} ReplaceAllChar(s: string, c: char, rep: string)
    ensures ReplaceAll(s, [c], rep) == ExpandChar(s, c, rep)
    decreases |s|
  {
    if s != [] {
      ReplaceAllChar(s[1..], c, rep);
      assert s[..1] == [c] <==> s[0] == c;
    }
  }

  // ---- fmt "%03d" on a non-negative int ----

  predicate IsDigit(c: char)
  {
    '0' <= c <= '9'
  }

  predicate AllDigits(s: string)
  {
    forall i :: 0 <= i < |s| ==> IsDigit(s[i])
  }

  function DigitChar(d: nat): (c: char)
    requires d < 10
    ensures IsDigit(c) && (c as int) - ('0' as int) == d
  {
    (('0' as int) + d) as char
  }

  /** Decimal digits of `n`, most significant first, without leading zeros. */
  function Decimal(n: nat): (r: string)
    ensures 1 <= |r|
    ensures AllDigits(r)
    decreases n
  {
    if n < 10 then [DigitChar(n)] else Decimal(n / 10) + [DigitChar(n % 10)]
  }

  /** The value of a string of decimal digits. */
  function DecimalValue(s: string): nat
    requires AllDigits(s)
    decreases |s|
  {
    if s == [] then 0
    else 10 * DecimalValue(s[..|s| - 1]) + ((s[|s| - 1] as int) - ('0' as int))
  }

  function Zeros(k: nat): (z: string)
    ensures |z| == k && AllDigits(z)
  {
    seq(k, i => '0')
  }

  /** `fmt.Sprintf("%03d", n)`: at least three digits, padded on the left with zeros. */
  function Pad3(n: nat): string
  {
    if n < 10 then "00" + Decimal(n) else if n < 100 then "0" + Decimal(n) else Decimal(n)
  }

  /** A `%03d` rendering is at least three digits long, and exactly three below 1000. */
  lemma Pad3Shape(n: nat)
    ensures 3 <= |Pad3(n)| && AllDigits(Pad3(n))
    ensures n < 1000 ==> |Pad3(n)| == 3
  {
    DecimalBound(n);
    var d := Decimal(n);
    if n < 10 {
      assert Pad3(n) == Zeros(2) + d;
    } else if n < 100 {
      assert Pad3(n) == Zeros(1) + d;
    }
  }

  lemma {:induction false} DecimalBound(n: nat)
    ensures n < 1000 ==> |Decimal(n)| <= 3
    ensures |Decimal(n)| < 3 ==> n < 100
    decreases n
  {
    if n >= 10 {
      DecimalBound(n / 10);
    }
  }

  lemma {:induction false} DecimalRoundTrip(n: nat)
    ensures DecimalValue(Decimal(n)) == n
    decreases n
  {
    var d := Decimal(n);
    if n >= 10 {
      DecimalRoundTrip(n / 10);
      assert d[..|d| - 1] == Decimal(n / 10);
    }
  }

  lemma {:induction false} LeadingZerosValue(k: nat, s: string)
    requires AllDigits(s)
    ensures DecimalValue(Zeros(k) + s) == DecimalValue(s)
    decreases |s|
  {
    var t := Zeros(k) + s;
    if s == [] {
      assert t == Zeros(k);
      ZerosValue(k);
    } else {
      assert t[..|t| - 1] == Zeros(k) + s[..|s| - 1];
      LeadingZerosValue(k, s[..|s| - 1]);
    }
  }

  lemma {:induction false} ZerosValue(k: nat)
    ensures DecimalValue(Zeros(k)) == 0
  {
    if k > 0 {
      assert Zeros(k)[..k - 1] == Zeros(k - 1);
      ZerosValue(k - 1);
    }
  }

  /** Reading back a `%03d` rendering gives the number. */
  lemma Pad3RoundTrip(n: nat)
    ensures AllDigits(Pad3(n)) && DecimalValue(Pad3(n)) == n
  {
    Pad3Shape(n);
    DecimalRoundTrip(n);
    if n < 10 {
      assert Zeros(2) == "00";
      LeadingZerosValue(2, Decimal(n));
    } else if n < 100 {
      assert Zeros(1) == "0";
      LeadingZerosValue(1, Decimal(n));
    }
  }

  /** Distinct numbers get distinct `%03d` renderings. */
  lemma Pad3Injective(n: nat, m: nat)
    ensures Pad3(n) == Pad3(m) <==> n == m
  {
    Pad3RoundTrip(n);
    Pad3RoundTrip(m);
  }
}
