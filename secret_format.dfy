/** The text file of a secret image, as pure functions over characters:
    what `save_to_file` writes and what the `>>` extractions of
    `load_from_file` read back.

      <width> <height>\n
      <upper[0]> <upper[1]> ... <upper[U-1]>\n
      <lower[0]> <lower[1]> ... <lower[L-1]>\n

    Values are decimal, separated by one space, with no space after the
    last value of a line. */
module SecretFormat {
  import opened Outcomes
  import opened Triangular

  // ---------------------------------------------------------------------------
  // Printing (`operator<<` on int)

  function DigitChar(d: nat): (c: char)
    requires d < 10
    ensures IsDigit(c) && DigitValue(c) == d
  {
    ('0' as int + d) as char
  }

  /** Decimal digits of `n`, most significant first, no leading zeros. */
  function NatText(n: nat): (s: string)
    ensures |s| > 0 && AllDigits(s)
  {
    if n < 10 then [DigitChar(n)] else NatText(n / 10) + [DigitChar(n % 10)]
  }

  /** An `int` as `operator<<` prints it: a minus sign before negative values. */
  function IntText(x: int): (s: string)
    ensures |s| > 0 && !IsSpace(s[0])
  {
    if x < 0 then "-" + NatText(-x) else NatText(x)
  }

  /** Values separated by single spaces, with no trailing space. */
  function Joined(vs: seq<int>): string {
    if vs == [] then "" else IntText(vs[0]) + Spaced(vs[1..])
  }

  /** Each value preceded by one space. */
  function Spaced(vs: seq<int>): string {
    if vs == [] then "" else " " + IntText(vs[0]) + Spaced(vs[1..])
  }

  /** The whole file. */
  function Format(width: int, height: int, upper: seq<int>, lower: seq<int>): string {
    IntText(width) + (" " + (IntText(height) + ("\n" + (Joined(upper) + ("\n" + (Joined(lower) + "\n"))))))
  }

  lemma {:induction false} SpacedSnoc(vs: seq<int>, v: int)
    ensures Spaced(vs + [v]) == Spaced(vs) + (" " + IntText(v))
  {
    var last := " " + IntText(v);
    if vs != [] {
      var ws := vs + [v];
      var first := " " + IntText(vs[0]);
      assert ws[0] == vs[0] && ws[1..] == vs[1..] + [v];
      assert Spaced(ws) == first + Spaced(vs[1..] + [v]);
      SpacedSnoc(vs[1..], v);
      Assoc3(first, Spaced(vs[1..]), last);
    } else {
      assert Spaced([v]) == last + Spaced([]);
    }
  }

  /** Appending one value to a non-empty line adds a space and the value. */
  lemma JoinedSnoc(vs: seq<int>, v: int)
    requires vs != []
    ensures Joined(vs + [v]) == Joined(vs) + " " + IntText(v)
  {
    assert (vs + [v])[0] == vs[0];
    assert (vs + [v])[1..] == vs[1..] + [v];
    SpacedSnoc(vs[1..], v);
    Assoc3(IntText(vs[0]), Spaced(vs[1..]), " " + IntText(v));
    Assoc3(Joined(vs), " ", IntText(v));
  }

  /** What the loop over a value line has written after its first `i`
      iterations: values `0 .. i-1`, each but the line's last followed by a space. */
  function Partial(vs: seq<int>, i: nat): string
    requires i <= |vs|
  {
    if i == 0 then "" else Joined(vs[..i]) + (if i < |vs| then " " else "")
  }

  /** One more iteration of a value line's loop: value `i`, then a space
      unless it is the last value. */
  lemma PartialStep(vs: seq<int>, i: nat)
    requires i < |vs|
    ensures Partial(vs, i) + IntText(vs[i]) + (if i == |vs| - 1 then "" else " ") == Partial(vs, i + 1)
  {
    if i == 0 {
      PartialFirst(vs);
    } else {
      PartialNext(vs, i);
    }
  }

  lemma PartialFirst(vs: seq<int>)
    requires 0 < |vs|
    ensures Partial(vs, 1) == IntText(vs[0]) + (if |vs| == 1 then "" else " ")
  {
    assert vs[..1] == [vs[0]];
    assert Joined(vs[..1]) == IntText(vs[0]) + Spaced([]);
  }

  lemma PartialNext(vs: seq<int>, i: nat)
    requires 0 < i < |vs|
    ensures Partial(vs, i + 1) == Partial(vs, i) + IntText(vs[i]) + (if i == |vs| - 1 then "" else " ")
  {
    assert vs[..i + 1] == vs[..i] + [vs[i]];
    JoinedSnoc(vs[..i], vs[i]);
  }

  /** The whole file as the source writes it, piece after piece. */
  lemma FormatInOrder(width: int, height: int, upper: seq<int>, lower: seq<int>)
    ensures Format(width, height, upper, lower)
         == IntText(width) + " " + IntText(height) + "\n" + Joined(upper) + "\n" + Joined(lower) + "\n"
  {
    var t := Joined(lower) + "\n";
    var h := IntText(width) + " " + IntText(height) + "\n";
    Assoc3(h + Joined(upper), "\n", t);
    Assoc3(h, Joined(upper), "\n" + t);
    Assoc3(IntText(width) + " " + IntText(height), "\n", Joined(upper) + ("\n" + t));
    Assoc3(IntText(width) + " ", IntText(height), "\n" + (Joined(upper) + ("\n" + t)));
    Assoc3(IntText(width), " ", IntText(height) + ("\n" + (Joined(upper) + ("\n" + t))));
  }

  lemma Assoc3(a: string, b: string, c: string)
    ensures a + b + c == a + (b + c)
  {
  }

  // ---------------------------------------------------------------------------
  // Reading (`operator>>` into int)

  /** The characters `isspace` accepts: space, tab, newline, vertical tab,
      form feed, carriage return. */
  predicate IsSpace(c: char) {
    c == ' ' || '\t' <= c <= '\r'
  }

  predicate IsDigit(c: char) {
    '0' <= c <= '9'
  }

  predicate AllDigits(d: string) {
    forall k :: 0 <= k < |d| ==> IsDigit(d[k])
  }

  predicate AllSpace(sp: string) {
    forall k :: 0 <= k < |sp| ==> IsSpace(sp[k])
  }

  function DigitValue(c: char): nat
    requires IsDigit(c)
  {
    c as int - '0' as int
  }

  /** Leading white space skipped, as every `>>` does first. */
  function SkipSpace(s: string): (r: string)
    ensures r == [] || !IsSpace(r[0])
  {
    if |s| > 0 && IsSpace(s[0]) then SkipSpace(s[1..]) else s
  }

  /** Number of leading digits. */
  function DigitRun(s: string): (n: nat)
    ensures n <= |s|
    ensures n < |s| ==> !IsDigit(s[n])
  {
    if |s| > 0 && IsDigit(s[0]) then 1 + DigitRun(s[1..]) else 0
  }

  /** The run `DigitRun` counts consists of digits only. */
  lemma {:induction false} DigitRunIsDigits(s: string)
    ensures AllDigits(s[..DigitRun(s)])
  {
    if |s| > 0 && IsDigit(s[0]) {
      DigitRunIsDigits(s[1..]);
      var n := DigitRun(s);
      assert s[..n] == [s[0]] + s[1..][..n - 1];
    }
  }

  /** The number a run of decimal digits denotes. */
  function DigitsValue(d: string): nat
    requires AllDigits(d)
  {
    if |d| == 0 then 0 else DigitsValue(d[..|d| - 1]) * 10 + DigitValue(d[|d| - 1])
  }

  /** Reads the longest run of digits; fails when there is none. */
  function ReadNat(s: string): Option<(nat, string)> {
    var n := DigitRun(s);
    if n == 0 then None
    else
      DigitRunIsDigits(s);
      Some((DigitsValue(s[..n]), s[n..]))
  }

  /** One `>>` into an `int`: skips white space, accepts an optional sign,
      then at least one digit; returns the value and the unread rest. */
  function ReadInt(s: string): Option<(int, string)> {
    var t := SkipSpace(s);
    var signed := |t| > 0 && (t[0] == '-' || t[0] == '+');
    var digits := ReadNat(if signed then t[1..] else t);
    if digits.None? then None
    else
      var v: int := digits.value.0;
      Some((if signed && t[0] == '-' then -v else v, digits.value.1))
  }

  /** `count` successive reads. */
  function ReadInts(s: string, count: nat): Option<(seq<int>, string)>
    decreases count
  {
    if count == 0 then Some(([], s))
    else
      var first := ReadInt(s);
      if first.None? then None
      else
        var others := ReadInts(first.value.1, count - 1);
        if others.None? then None
        else Some(([first.value.0] + others.value.0, others.value.1))
  }

  /** What a load recovers: the two dimensions and both arrays. */
  datatype Stored = Stored(width: int, height: int, upper: seq<int>, lower: seq<int>)

  /** `load_from_file` on the text of a file: reads `w` and `h`, then
      `UpperSize(w)` and `LowerSize(w)` integers (both sizes depend on `w`
      alone); `None` when the text runs out first or holds a non-number.
      Anything after the last value is ignored. */
  function Parse(text: string): (r: Option<Stored>)
    ensures r.Some? ==>
              |r.value.upper| == UpperSize(r.value.width) && |r.value.lower| == LowerSize(r.value.width)
  {
    match ReadInt(text)
    case None => None
    case Some((w, r1)) =>
      match ReadInt(r1)
      case None => None
      case Some((h, r2)) =>
        match ReadInts(r2, UpperSize(w))
        case None => None
        case Some((u, r3)) =>
          match ReadInts(r3, LowerSize(w))
          case None => None
          case Some((l, _)) =>
            ReadIntsLength(r2, UpperSize(w));
            ReadIntsLength(r3, LowerSize(w));
            Some(Stored(w, h, u, l))
  }

  lemma {:induction false} ReadIntsLength(s: string, count: nat)
    decreases count
    ensures ReadInts(s, count).Some? ==> |ReadInts(s, count).value.0| == count
  {
    if count > 0 && ReadInt(s).Some? {
      ReadIntsLength(ReadInt(s).value.1, count - 1);
    }
  }

  // ---------------------------------------------------------------------------
  // Reading back what was printed

  lemma {:induction false} NatTextValue(n: nat)
    ensures DigitsValue(NatText(n)) == n
  {
    if n >= 10 {
      NatTextValue(n / 10);
      var s := NatText(n);
      assert s[..|s| - 1] == NatText(n / 10);
    }
  }

  lemma {:induction false} DigitRunOfDigits(d: string, rest: string)
    requires AllDigits(d)
    requires rest == [] || !IsDigit(rest[0])
    ensures DigitRun(d + rest) == |d|
  {
    if d != [] {
      assert (d + rest)[1..] == d[1..] + rest;
      DigitRunOfDigits(d[1..], rest);
    }
  }

  lemma ReadNatText(n: nat, rest: string)
    requires rest == [] || !IsDigit(rest[0])
    ensures ReadNat(NatText(n) + rest) == Some((n, rest))
  {
    var d := NatText(n);
    DigitRunOfDigits(d, rest);
    assert (d + rest)[..|d|] == d;
    assert (d + rest)[|d|..] == rest;
    NatTextValue(n);
  }

  lemma {:induction false} SkipSpacePrefix(sp: string, s: string)
    requires AllSpace(sp)
    ensures SkipSpace(sp + s) == SkipSpace(s)
  {
    if sp != [] {
      assert (sp + s)[0] == sp[0];
      assert (sp + s)[1..] == sp[1..] + s;
      assert SkipSpace(sp + s) == SkipSpace(sp[1..] + s);
      SkipSpacePrefix(sp[1..], s);
    } else {
      assert sp + s == s;
    }
  }

  /** A printed integer, possibly after white space, reads back as itself
      when no digit follows it. */
  lemma ReadIntText(sp: string, x: int, rest: string)
    requires AllSpace(sp)
    requires rest == [] || !IsDigit(rest[0])
    ensures ReadInt(sp + (IntText(x) + rest)) == Some((x, rest))
  {
    var t := IntText(x) + rest;
    SkipSpacePrefix(sp, t);
    ReadIntTextAlone(x, rest);
  }

  lemma ReadIntTextAlone(x: int, rest: string)
    requires rest == [] || !IsDigit(rest[0])
    ensures ReadInt(IntText(x) + rest) == Some((x, rest))
  {
    if x < 0 {
      ReadNegativeText(x, rest);
    } else {
      ReadNatText(x, rest);
      var t := NatText(x) + rest;
      assert t[0] == NatText(x)[0];
      ReadIntUnsigned(t, x, rest);
    }
  }

  lemma ReadNegativeText(x: int, rest: string)
    requires x < 0 && (rest == [] || !IsDigit(rest[0]))
    ensures ReadInt(IntText(x) + rest) == Some((x, rest))
  {
    var t := IntText(x) + rest;
    assert t == "-" + (NatText(-x) + rest);
    assert t[1..] == NatText(-x) + rest;
    ReadNatText(-x, rest);
    ReadIntMinus(t, -x, rest);
  }

  lemma ReadIntMinus(t: string, n: nat, rest: string)
    requires |t| > 0 && t[0] == '-'
    requires ReadNat(t[1..]) == Some((n, rest))
    ensures ReadInt(t) == Some((-(n as int), rest))
  {
  }

  lemma ReadIntUnsigned(t: string, n: nat, rest: string)
    requires |t| > 0 && IsDigit(t[0])
    requires ReadNat(t) == Some((n, rest))
    ensures ReadInt(t) == Some((n, rest))
  {
  }

  lemma {:induction false} ReadSpaced(vs: seq<int>, rest: string)
    requires rest == [] || IsSpace(rest[0])
    ensures ReadInts(Spaced(vs) + rest, |vs|) == Some((vs, rest))
  {
    if vs != [] {
      ReadSpaced(vs[1..], rest);
      ReadSpacedCons(vs, rest);
    } else {
      assert Spaced(vs) + rest == rest;
    }
  }

  /** The step of `ReadSpaced`: one more value in front of a run that
      reads back. */
  lemma {:induction false} ReadSpacedCons(vs: seq<int>, rest: string)
    requires vs != []
    requires rest == [] || IsSpace(rest[0])
    requires ReadInts(Spaced(vs[1..]) + rest, |vs| - 1) == Some((vs[1..], rest))
    ensures ReadInts(Spaced(vs) + rest, |vs|) == Some((vs, rest))
  {
    ReadIntSpaced(vs, rest);
    ReadIntsCons(Spaced(vs) + rest, vs, Spaced(vs[1..]) + rest, rest);
  }

  /** The first read of a spaced run takes its first value. */
  lemma {:induction false} ReadIntSpaced(vs: seq<int>, rest: string)
    requires vs != []
    requires rest == [] || IsSpace(rest[0])
    ensures ReadInt(Spaced(vs) + rest) == Some((vs[0], Spaced(vs[1..]) + rest))
  {
    var tail := Spaced(vs[1..]) + rest;
    SpacedSplit(vs, rest);
    assert AllSpace(" ");
    assert tail == [] || !IsDigit(tail[0]);
    ReadIntText(" ", vs[0], tail);
  }

  lemma SpacedSplit(vs: seq<int>, rest: string)
    requires vs != []
    requires rest == [] || IsSpace(rest[0])
    ensures Spaced(vs) + rest == " " + (IntText(vs[0]) + (Spaced(vs[1..]) + rest))
    ensures [vs[0]] + vs[1..] == vs
    ensures Spaced(vs[1..]) + rest == [] || IsSpace((Spaced(vs[1..]) + rest)[0])
  {
    Assoc3(" " + IntText(vs[0]), Spaced(vs[1..]), rest);
    Assoc3(" ", IntText(vs[0]), Spaced(vs[1..]) + rest);
    SpacedThenSpace(vs[1..], rest);
  }

  /** A spaced run of values followed by white space or nothing starts
      with white space or is empty. */
  lemma SpacedThenSpace(vs: seq<int>, rest: string)
    requires rest == [] || IsSpace(rest[0])
    ensures Spaced(vs) + rest == [] || IsSpace((Spaced(vs) + rest)[0])
  {
    if vs == [] {
      assert Spaced(vs) + rest == rest;
    } else {
      assert (Spaced(vs) + rest)[0] == ' ';
    }
  }

  /** A line of values, after any white space, reads back as those values
      when white space or nothing follows it. */
  lemma ReadJoined(sp: string, vs: seq<int>, rest: string)
    requires AllSpace(sp)
    requires rest == [] || IsSpace(rest[0])
    requires vs != []
    ensures ReadInts(sp + (Joined(vs) + rest), |vs|) == Some((vs, rest))
  {
    var tail := Spaced(vs[1..]) + rest;
    JoinedSplit(sp, vs, rest);
    ReadIntText(sp, vs[0], tail);
    ReadSpaced(vs[1..], rest);
    ReadIntsCons(sp + (IntText(vs[0]) + tail), vs, tail, rest);
  }

  lemma JoinedSplit(sp: string, vs: seq<int>, rest: string)
    requires vs != []
    requires rest == [] || IsSpace(rest[0])
    ensures sp + (Joined(vs) + rest) == sp + (IntText(vs[0]) + (Spaced(vs[1..]) + rest))
    ensures [vs[0]] + vs[1..] == vs
    ensures Spaced(vs[1..]) + rest == [] || IsSpace((Spaced(vs[1..]) + rest)[0])
  {
    Assoc3(IntText(vs[0]), Spaced(vs[1..]), rest);
    SpacedThenSpace(vs[1..], rest);
  }

  /** Reading `|vs|` values reads the first one, then the others. */
  lemma ReadIntsCons(s: string, vs: seq<int>, tail: string, rest: string)
    requires vs != []
    requires ReadInt(s) == Some((vs[0], tail))
    requires ReadInts(tail, |vs| - 1) == Some((vs[1..], rest))
    ensures ReadInts(s, |vs|) == Some((vs, rest))
  {
    assert [vs[0]] + vs[1..] == vs;
  }

  /** A line read after white space `sp`: its values come back, and the
      reader stops right after them (or, for an empty line, reads nothing). */
  lemma ReadLine(sp: string, vs: seq<int>, rest: string)
    requires AllSpace(sp)
    requires rest == [] || IsSpace(rest[0])
    ensures ReadInts(sp + (Joined(vs) + rest), |vs|) == Some((vs, if vs == [] then sp + rest else rest))
  {
    if vs != [] {
      ReadJoined(sp, vs, rest);
    } else {
      assert Joined(vs) + rest == rest;
    }
  }

  lemma ParseSteps(text: string, w: int, r1: string, h: int, r2: string, u: seq<int>, r3: string, l: seq<int>)
    requires ReadInt(text) == Some((w, r1))
    requires ReadInt(r1) == Some((h, r2))
    requires ReadInts(r2, UpperSize(w)) == Some((u, r3))
    requires ReadInts(r3, LowerSize(w)).Some? && ReadInts(r3, LowerSize(w)).value.0 == l
    ensures Parse(text) == Some(Stored(w, h, u, l))
  {
  }

  /** Loading what `save_to_file` wrote restores the width, the height and
      both arrays exactly. */
  lemma ParseFormat(width: int, height: int, upper: seq<int>, lower: seq<int>)
    requires |upper| == UpperSize(width) && |lower| == LowerSize(width)
    ensures Parse(Format(width, height, upper, lower)) == Some(Stored(width, height, upper, lower))
  {
    var body := "\n" + (Joined(upper) + ("\n" + (Joined(lower) + "\n")));
    var afterW := " " + (IntText(height) + body);
    ReadHeader(width, height, body);
    var afterU := ReadBody(upper, lower);
    ParseSteps(Format(width, height, upper, lower), width, afterW, height, body, upper, afterU, lower);
  }

  /** The first line reads back as the width, then the height. */
  lemma ReadHeader(width: int, height: int, body: string)
    requires body == [] || !IsDigit(body[0])
    ensures ReadInt(IntText(width) + (" " + (IntText(height) + body)))
         == Some((width, " " + (IntText(height) + body)))
    ensures ReadInt(" " + (IntText(height) + body)) == Some((height, body))
  {
    var afterW := " " + (IntText(height) + body);
    assert IntText(width) + afterW == [] + (IntText(width) + afterW);
    ReadIntText([], width, afterW);
    assert AllSpace(" ");
    ReadIntText(" ", height, body);
  }

  /** The two value lines after the header read back as both arrays. */
  lemma ReadBody(upper: seq<int>, lower: seq<int>) returns (afterU: string)
    ensures ReadInts("\n" + (Joined(upper) + ("\n" + (Joined(lower) + "\n"))), |upper|) == Some((upper, afterU))
    ensures ReadInts(afterU, |lower|).Some? && ReadInts(afterU, |lower|).value.0 == lower
  {
    var lowerLine := Joined(lower) + "\n";
    ReadLine("\n", upper, "\n" + lowerLine);
    var sp := if upper == [] then "\n\n" else "\n";
    afterU := sp + lowerLine;
    if upper == [] {
      NewlinePair(lowerLine);
    }
    ReadLine(sp, lower, "\n");
  }

  lemma NewlinePair(x: string)
    ensures "\n" + ("\n" + x) == "\n\n" + x
  {
  }
}
