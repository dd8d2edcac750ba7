/**
 The persisted index of a queue directory: the text "head,tail" written with
 Python's f-string decimal rendering, read back by splitting on ',' and calling
 int() on each part, and rewritten in place without truncating the file.
 */
module IndexText {
  import opened Outcomes

  predicate IsDigit(c: char) {
    '0' <= c <= '9'
  }

  predicate AllDigits(s: string) {
    forall i :: 0 <= i < |s| ==> IsDigit(s[i])
  }

  function DigitChar(d: nat): (c: char)
    requires d < 10
    ensures IsDigit(c) && c as int - '0' as int == d
  {
    ('0' as int + d) as char
  }

  /** Decimal rendering of a counter, most significant digit first, no leading zeros. */
  function NatToString(n: nat): (s: string)
    ensures 1 <= |s| && AllDigits(s)
    ensures |s| > 1 ==> s[0] != '0'
    decreases n
  {
    if n < 10 then [DigitChar(n)] else NatToString(n / 10) + [DigitChar(n % 10)]
  }

  /** The number a string of decimal digits denotes (leading zeros allowed). */
  function DigitsValue(s: string): nat
    requires AllDigits(s)
  {
    if |s| == 0 then 0
    else DigitsValue(s[..|s| - 1]) * 10 + (s[|s| - 1] as int - '0' as int)
  }

  /** A digit string as the f-string writes it: no leading zero unless it is "0" itself. */
  predicate Canonical(s: string) {
    |s| == 1 || (|s| > 1 && s[0] != '0')
  }

  /**
   Python's int() on a part of the index text, restricted to plain digit
   strings: it accepts exactly the non-empty digit strings, and on one without
   leading zeros it gives the number whose decimal rendering is that string.
   */
  function ParseNat(s: string): (r: Option<nat>)
    ensures r.Some? <==> 1 <= |s| && AllDigits(s)
    ensures r.Some? ==> r.value == DigitsValue(s)
    ensures r.Some? && Canonical(s) ==> NatToString(r.value) == s
  {
    if 1 <= |s| && AllDigits(s) then
      NatToStringOfDigitsValue(s);
      Some(DigitsValue(s))
    else None
  }

  /** Glue parts back together with `sep` between consecutive parts. */
  function Join(parts: seq<string>, sep: char): string
    requires |parts| >= 1
    decreases |parts|
  {
    if |parts| == 1 then parts[0] else parts[0] + [sep] + Join(parts[1..], sep)
  }

  /**
   Python's str.split(sep): the maximal sep-free pieces between separators,
   so an empty text gives one empty piece and a trailing separator an empty last piece.
   */
  function Split(s: string, sep: char): (parts: seq<string>)
    ensures |parts| >= 1
    ensures forall i :: 0 <= i < |parts| ==> sep !in parts[i]
    ensures Join(parts, sep) == s
    decreases |s|
  {
    if |s| == 0 then [""]
    else
      var rest := Split(s[1..], sep);
      if s[0] == sep then
        assert s == [sep] + s[1..];
        [""] + rest
      else
        var parts := [[s[0]] + rest[0]] + rest[1..];
        assert parts[1..] == rest[1..];
        assert s == [s[0]] + s[1..];
        parts
  }

  /** The text written to the index file for counters (head, tail): it splits on ',' into the two renderings. */
  function FormatIndex(head: nat, tail: nat): (text: string)
    ensures Split(text, ',') == [NatToString(head), NatToString(tail)]
  {
    var a, b := NatToString(head), NatToString(tail);
    SplitOfJoin([a, b], ',');
    assert Join([a, b], ',') == a + [','] + b;
    a + [','] + b
  }

  /**
   The counters read back from index text; None where Python's parse raises.
   A text without a comma never parses, and a text whose two parts carry no
   leading zeros parses only to the counters that format back to it.
   */
  function ParseIndex(text: string): (r: Option<(nat, nat)>)
    ensures ',' !in text ==> r == None
    ensures r.Some? <==>
      && |Split(text, ',')| == 2
      && ParseNat(Split(text, ',')[0]).Some? && ParseNat(Split(text, ',')[1]).Some?
    ensures r.Some? ==>
      && Some(r.value.0) == ParseNat(Split(text, ',')[0])
      && Some(r.value.1) == ParseNat(Split(text, ',')[1])
    ensures r.Some? && Canonical(Split(text, ',')[0]) && Canonical(Split(text, ',')[1]) ==>
      FormatIndex(r.value.0, r.value.1) == text
  {
    var parts := Split(text, ',');
    if |parts| != 2 then None
    else
      match (ParseNat(parts[0]), ParseNat(parts[1]))
      case (Some(h), Some(t)) =>
        assert Join(parts, ',') == parts[0] + [','] + Join(parts[1..], ',');
        assert parts[1..] == [parts[1]];
        Some((h, t))
      case _ => None
  }

  /**
   The file contents after opening an existing file for update, seeking to
   the start and writing `text`: the new text over the first |text| characters,
   the earlier characters beyond it left as they were.
   */
  function Overwrite(before: string, text: string): (r: string)
    ensures |r| == if |text| >= |before| then |text| else |before|
    ensures r[..|text|] == text
    ensures forall i :: |text| <= i < |r| ==> r[i] == before[i]
  {
    if |text| >= |before| then text else text + before[|text|..]
  }

  lemma {:induction false} DigitsValueAtLeastOne(s: string)
    requires 1 <= |s| && AllDigits(s) && s[0] != '0'
    ensures DigitsValue(s) >= 1
    decreases |s|
  {
    if |s| > 1 {
      DigitsValueAtLeastOne(s[..|s| - 1]);
    }
  }

  /** Rendering the value of a digit string without leading zeros gives the string back. */
  lemma {:induction false} NatToStringOfDigitsValue(s: string)
    requires 1 <= |s| && AllDigits(s)
    ensures Canonical(s) ==> NatToString(DigitsValue(s)) == s
    decreases |s|
  {
    if Canonical(s) {
      var n := DigitsValue(s);
      var d := s[|s| - 1] as int - '0' as int;
      if |s| == 1 {
        assert s[..0] == [];
        assert DigitsValue(s[..0]) == 0;
        assert n == d;
        assert s == [DigitChar(d)];
      } else {
        var p := s[..|s| - 1];
        DigitsValueAtLeastOne(p);
        NatToStringOfDigitsValue(p);
        assert n / 10 == DigitsValue(p) && n % 10 == d;
        assert s == p + [s[|s| - 1]];
      }
    }
  }

  lemma {:induction false} DigitsValueOfNatToString(n: nat)
    ensures DigitsValue(NatToString(n)) == n
    decreases n
  {
    var s := NatToString(n);
    if n >= 10 {
      DigitsValueOfNatToString(n / 10);
      assert s[..|s| - 1] == NatToString(n / 10);
    }
  }

  /** int() reads back every counter the f-string writes. */
  lemma ParseNatOfNatToString(n: nat)
    ensures ParseNat(NatToString(n)) == Some(n)
  {
    DigitsValueOfNatToString(n);
  }

  /** A larger counter never has a shorter decimal rendering. */
  lemma {:induction false} NatToStringLengthMonotone(a: nat, b: nat)
    requires a <= b
    ensures |NatToString(a)| <= |NatToString(b)|
    decreases b
  {
    if a >= 10 {
      NatToStringLengthMonotone(a / 10, b / 10);
    }
  }

  lemma {:induction false} SplitSepFree(a: string, sep: char)
    requires sep !in a
    ensures Split(a, sep) == [a]
    decreases |a|
  {
    if |a| > 0 {
      SplitSepFree(a[1..], sep);
      assert a == [a[0]] + a[1..];
    }
  }

  lemma {:induction false} SplitAfterSepFree(a: string, sep: char, rest: string)
    requires sep !in a
    ensures Split(a + [sep] + rest, sep) == [a] + Split(rest, sep)
    decreases |a|
  {
    var s := a + [sep] + rest;
    if |a| == 0 {
      assert s[1..] == rest;
    } else {
      assert s[1..] == a[1..] + [sep] + rest;
      SplitAfterSepFree(a[1..], sep, rest);
      assert a == [a[0]] + a[1..];
    }
  }

  /** Splitting undoes joining whenever no part contains the separator. */
  lemma {:induction false} SplitOfJoin(parts: seq<string>, sep: char)
    requires |parts| >= 1
    requires forall i :: 0 <= i < |parts| ==> sep !in parts[i]
    ensures Split(Join(parts, sep), sep) == parts
    decreases |parts|
  {
    if |parts| == 1 {
      SplitSepFree(parts[0], sep);
    } else {
      SplitOfJoin(parts[1..], sep);
      SplitAfterSepFree(parts[0], sep, Join(parts[1..], sep));
    }
  }

  /** Formatting the counters and parsing the text back is the identity. */
  lemma IndexRoundTrip(head: nat, tail: nat)
    ensures ParseIndex(FormatIndex(head, tail)) == Some((head, tail))
  {
    var a, b := NatToString(head), NatToString(tail);
    assert FormatIndex(head, tail) == Join([a, b], ',');
    SplitOfJoin([a, b], ',');
    ParseNatOfNatToString(head);
    ParseNatOfNatToString(tail);
  }

  /**
   Rewriting the index in place leaves exactly the new text when neither
   counter went down: the new text is never shorter, so nothing stale survives.
   */
  lemma IndexOverwriteExact(head: nat, tail: nat, head': nat, tail': nat)
    requires head <= head' && tail <= tail'
    ensures Overwrite(FormatIndex(head, tail), FormatIndex(head', tail')) == FormatIndex(head', tail')
  {
    NatToStringLengthMonotone(head, head');
    NatToStringLengthMonotone(tail, tail');
  }
}
