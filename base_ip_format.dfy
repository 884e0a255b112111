/**
 * The base-prefix validator `isValidBaseIpFormat` (skaner_ip.cpp): a
 * string is accepted when it splits on '.' into exactly three non-empty
 * parts, each made only of decimal digits and denoting at most 255.
 */
module BaseIpFormat {
  import opened Wrappers
  import opened Decimal

  /** `std::string::find(c, from)`: the first index at or after `from` holding `c`; `None` is `npos`. */
  function Find(s: string, c: char, from: nat): (r: Option<nat>)
    ensures r.Some? ==> from <= r.value < |s| && s[r.value] == c
    ensures forall i :: from <= i < |s| && (r.None? || i < r.value) ==> s[i] != c
    decreases |s| - from
  {
    if from >= |s| then None
    else if s[from] == c then Some(from)
    else Find(s, c, from + 1)
  }

  /**
   * The parts of `t` between dots, in order: what the validator's loop
   * pushes onto `parts`, the last part being the rest after the last dot.
   */
  function Split(t: string): (parts: seq<string>)
    ensures |parts| >= 1
    decreases |t|
  {
    match Find(t, '.', 0)
    case None => [t]
    case Some(e) => [t[..e]] + Split(t[e + 1..])
  }

  predicate DotFree(p: string) {
    '.' !in p
  }

  /** The inverse of `Split`: the parts glued back together with dots. */
  function Join(parts: seq<string>): string
    requires |parts| >= 1
  {
    if |parts| == 1 then parts[0] else parts[0] + "." + Join(parts[1..])
  }

  /** Splitting loses nothing: the parts are dot-free, glue back to the input, and there is one more part than dots. */
  lemma {:induction false} JoinSplit(t: string)
    ensures Join(Split(t)) == t
    ensures forall i :: 0 <= i < |Split(t)| ==> DotFree(Split(t)[i])
    ensures |Split(t)| == multiset(t)['.'] + 1
    decreases |t|
  {
    match Find(t, '.', 0)
    case None =>
      assert '.' !in multiset(t);
    case Some(e) =>
      var head, tail := t[..e], t[e + 1..];
      assert Split(t) == [head] + Split(tail);
      JoinSplit(tail);
      assert Join(Split(t)) == head + "." + Join(Split(tail));
      assert t == head + ['.'] + tail;
      assert DotFree(head);
      assert multiset(t) == multiset(head) + multiset{'.'} + multiset(tail);
  }

  /** Gluing dot-free parts with dots and splitting again gives back those parts. */
  lemma {:induction false} SplitJoin(parts: seq<string>)
    requires |parts| >= 1
    requires forall i :: 0 <= i < |parts| ==> DotFree(parts[i])
    ensures Split(Join(parts)) == parts
    decreases |parts|
  {
    var t := Join(parts);
    if |parts| == 1 {
      assert Find(t, '.', 0) == None;
    } else {
      var p := parts[0];
      var rest := Join(parts[1..]);
      assert t == p + "." + rest;
      assert t[|p|] == '.';
      assert forall i :: 0 <= i < |p| ==> t[i] == p[i] && t[i] != '.';
      assert Find(t, '.', 0) == Some(|p|);
      assert t[..|p|] == p;
      assert t[|p| + 1..] == rest;
      SplitJoin(parts[1..]);
    }
  }

  /** The result of `std::stoi` on a string of digits. */
  datatype StoiResult = Int(value: int) | OutOfRange

  /** The largest `int` on the platforms the scanner targets (32 bits). */
  const IntMax: int := 0x7fff_ffff

  /** `std::stoi` on a non-empty string of decimal digits: out of range exactly when the value exceeds `IntMax`. */
  function Stoi(p: string): (r: StoiResult)
    requires |p| > 0 && AllDigits(p)
    ensures r.Int? <==> DecimalValue(p) <= IntMax
    ensures r.Int? ==> r.value == DecimalValue(p)
  {
    var v := DecimalValue(p);
    if v <= IntMax then Int(v) else OutOfRange
  }

  /** `std::stoi` reads back every `int` that `std::to_string` wrote. */
  lemma StoiOfNatToString(n: nat)
    requires n <= IntMax
    ensures Stoi(NatToString(n)) == Int(n)
  {
    DecimalValueOfNatToString(n);
  }

  /** One part passes the checks of the validator's inner loops and the `stoi` range test. */
  predicate ValidPart(p: string) {
    && |p| > 0
    && AllDigits(p)
    && Stoi(p).Int?
    && 0 <= Stoi(p).value <= 255
  }

  /** The specification of `isValidBaseIpFormat`. */
  predicate ValidBaseIp(s: string) {
    PartsValid(Split(s))
  }

  /** Exactly three parts, each of them valid. */
  predicate PartsValid(parts: seq<string>) {
    |parts| == 3 && forall j :: 0 <= j < |parts| ==> ValidPart(parts[j])
  }

  /** The text the split loop has consumed: every part pushed so far, each followed by its dot. */
  function Consumed(parts: seq<string>): string {
    if parts == [] then "" else parts[0] + "." + Consumed(parts[1..])
  }

  lemma {:induction false} ConsumedSnoc(parts: seq<string>, p: string)
    ensures Consumed(parts + [p]) == Consumed(parts) + p + "."
    decreases |parts|
  {
    if parts != [] {
      assert (parts + [p])[1..] == parts[1..] + [p];
      ConsumedSnoc(parts[1..], p);
    }
  }

  /** The consumed text followed by the rest is the join of all the parts. */
  lemma {:induction false} ConsumedJoin(parts: seq<string>, last: string)
    ensures Consumed(parts) + last == Join(parts + [last])
    decreases |parts|
  {
    if parts != [] {
      assert (parts + [last])[1..] == parts[1..] + [last];
      ConsumedJoin(parts[1..], last);
    }
  }

  /** One turn of the split loop: the part before the next dot is dot-free, and the consumed text grows by it and its dot. */
  lemma CutAtDot(s: string, parts: seq<string>, start: nat, e: nat)
    requires start <= |s| && Consumed(parts) == s[..start]
    requires Find(s, '.', start) == Some(e)
    ensures DotFree(s[start..e])
    ensures Consumed(parts + [s[start..e]]) == s[..e + 1]
  {
    ConsumedSnoc(parts, s[start..e]);
    assert s[..e + 1] == s[..start] + s[start..e] + ".";
  }

  /** With no dot left after `start`, the rest is dot-free, and so are all the parts. */
  lemma RestDotFree(s: string, parts: seq<string>, start: nat)
    requires start <= |s|
    requires forall j :: 0 <= j < |parts| ==> DotFree(parts[j])
    requires Find(s, '.', start).None?
    ensures forall j :: 0 <= j < |parts + [s[start..]]| ==> DotFree((parts + [s[start..]])[j])
  {
    var rest := s[start..];
    assert DotFree(rest) by {
      forall i | 0 <= i < |rest| ensures rest[i] != '.' {
        assert rest[i] == s[start + i];
      }
    }
    var all := parts + [rest];
    forall j | 0 <= j < |all| ensures DotFree(all[j]) {
      if j < |parts| { assert all[j] == parts[j]; } else { assert all[j] == rest; }
    }
  }

  /** The end of the split loop: with no dot left, the parts and the rest are `Split(s)`. */
  lemma LastPart(s: string, parts: seq<string>, start: nat)
    requires start <= |s| && Consumed(parts) == s[..start]
    requires forall j :: 0 <= j < |parts| ==> DotFree(parts[j])
    requires Find(s, '.', start).None?
    ensures Split(s) == parts + [s[start..]]
  {
    assert s == s[..start] + s[start..];
    RestDotFree(s, parts, start);
    ConsumedJoin(parts, s[start..]);
    SplitJoin(parts + [s[start..]]);
  }

  /** The first half of `isValidBaseIpFormat`: cut the string at every dot, counting the dots. */
  method SplitOnDots(s: string) returns (parts: seq<string>, dotCount: nat)
    ensures parts == Split(s)
    ensures dotCount == |parts| - 1
  {
    parts := [];
    var start: nat := 0;
    var end := Find(s, '.', 0);
    dotCount := 0;
    while end.Some?
      invariant start <= |s|
      invariant end == Find(s, '.', start)
      invariant Consumed(parts) == s[..start]
      invariant forall j :: 0 <= j < |parts| ==> DotFree(parts[j])
      invariant dotCount == |parts|
      decreases |s| - start
    {
      var e := end.value;
      CutAtDot(s, parts, start, e);
      parts := parts + [s[start..e]];
      start := e + 1;
      end := Find(s, '.', start);
      dotCount := dotCount + 1;
    }
    LastPart(s, parts, start);
    parts := parts + [s[start..]];
  }

  /** `isValidBaseIpFormat`: the dot and part counts, then the per-part emptiness, digit and `stoi` range checks. */
  method IsValidBaseIpFormat(baseIp: string) returns (ok: bool)
    ensures ok == ValidBaseIp(baseIp)
  {
    var parts, dotCount := SplitOnDots(baseIp);
    if dotCount != 2 {
      return false;
    }
    if |parts| != 3 {
      return false;
    }

    for k := 0 to |parts|
      invariant forall j :: 0 <= j < k ==> ValidPart(parts[j])
    {
      var part := parts[k];
      if |part| == 0 {
        return false;
      }
      for ci := 0 to |part|
        invariant forall j :: 0 <= j < ci ==> IsDigit(part[j])
      {
        if !IsDigit(part[ci]) {
          return false;
        }
      }
      var num := Stoi(part);
      if num.OutOfRange? {
        return false;
      }
      if num.value < 0 || num.value > 255 {
        return false;
      }
    }
    return true;
  }

  /** An accepted prefix has exactly two dots and is three valid parts glued with dots. */
  lemma ValidBaseIpShape(s: string)
    requires ValidBaseIp(s)
    ensures multiset(s)['.'] == 2
    ensures s == Split(s)[0] + "." + Split(s)[1] + "." + Split(s)[2]
  {
    JoinSplit(s);
    var p := Split(s);
    assert p == [p[0], p[1], p[2]];
    JoinThree(p[0], p[1], p[2]);
  }

  /** Three parts joined: `a.b.c`. */
  lemma JoinThree(a: string, b: string, c: string)
    ensures Join([a, b, c]) == a + "." + b + "." + c
  {
    assert [a, b, c][1..] == [b, c];
    assert [b, c][1..] == [c];
    assert Join([b, c]) == b + "." + c;
    assert Join([a, b, c]) == a + "." + (b + "." + c);
    assert a + "." + (b + "." + c) == a + "." + b + "." + c;
  }

  /**
   * Three dot-free strings glued with dots form an accepted prefix exactly
   * when each is a non-empty numeral of value at most 255: leading zeros
   * are allowed, and a numeral too large for `int` is rejected like any
   * other value above 255.
   */
  lemma ValidBaseIpIff(a: string, b: string, c: string)
    requires DotFree(a) && DotFree(b) && DotFree(c)
    ensures ValidBaseIp(a + "." + b + "." + c) <==>
              (|a| > 0 && AllDigits(a) && DecimalValue(a) <= 255) &&
              (|b| > 0 && AllDigits(b) && DecimalValue(b) <= 255) &&
              (|c| > 0 && AllDigits(c) && DecimalValue(c) <= 255)
  {
    var parts := [a, b, c];
    var t := a + "." + b + "." + c;
    JoinThree(a, b, c);
    SplitJoin(parts);
    assert ValidBaseIp(t) <==> ValidPart(a) && ValidPart(b) && ValidPart(c) by {
      assert Split(t) == parts;
      assert parts[0] == a && parts[1] == b && parts[2] == c;
    }
    ValidPartIff(a);
    ValidPartIff(b);
    ValidPartIff(c);
  }

  /** The `stoi` range test only matters through the value: anything above 255 fails, overflowing or not. */
  lemma ValidPartIff(p: string)
    ensures ValidPart(p) <==> |p| > 0 && AllDigits(p) && DecimalValue(p) <= 255
  {
  }

  /** A string whose dot count is not two is rejected ("192.168", "192.168.1.1"). */
  lemma WrongDotCountRejected(s: string)
    requires multiset(s)['.'] != 2
    ensures !ValidBaseIp(s)
  {
    JoinSplit(s);
  }

  // Documented examples: one lemma each, through the characterisations above.

  lemma AcceptsTypicalPrefix()
    ensures ValidBaseIp("192.168.1")
  {
    assert DecimalValue("192") == 192 by { assert "192"[..2] == "19"; assert "19"[..1] == "1"; assert "1"[..0] == ""; }
    assert DecimalValue("168") == 168 by { assert "168"[..2] == "16"; assert "16"[..1] == "1"; assert "1"[..0] == ""; }
    assert DecimalValue("1") == 1 by { assert "1"[..0] == ""; }
    assert "192.168.1" == "192" + "." + "168" + "." + "1";
    ValidBaseIpIff("192", "168", "1");
  }

  lemma AcceptsLeadingZeros()
    ensures ValidBaseIp("010.000.255")
  {
    assert DecimalValue("010") == 10 by { assert "010"[..2] == "01"; assert "01"[..1] == "0"; assert "0"[..0] == ""; }
    assert DecimalValue("000") == 0 by { assert "000"[..2] == "00"; assert "00"[..1] == "0"; assert "0"[..0] == ""; }
    assert DecimalValue("255") == 255 by { assert "255"[..2] == "25"; assert "25"[..1] == "2"; assert "2"[..0] == ""; }
    assert "010.000.255" == "010" + "." + "000" + "." + "255";
    ValidBaseIpIff("010", "000", "255");
  }

  lemma RejectsWrongPartCount()
    ensures !ValidBaseIp("192.168") && !ValidBaseIp("192.168.1.1")
  {
    WrongDotCountRejected("192.168");
    WrongDotCountRejected("192.168.1.1");
  }

  lemma RejectsOctetAbove255()
    ensures !ValidBaseIp("192.168.999")
  {
    assert DecimalValue("999") == 999 by { assert "999"[..2] == "99"; assert "99"[..1] == "9"; assert "9"[..0] == ""; }
    assert "192.168.999" == "192" + "." + "168" + "." + "999";
    ValidBaseIpIff("192", "168", "999");
  }

  /** The value of ten nines, one digit at a time. */
  lemma TenNinesValue()
    ensures DecimalValue("9999999999") == 9999999999
  {
    var t := "9999999999";
    assert DecimalValue(t[..1]) == 9 by { assert t[..1][..0] == t[..0]; }
    assert DecimalValue(t[..2]) == 99 by { assert t[..2][..1] == t[..1]; }
    assert DecimalValue(t[..3]) == 999 by { assert t[..3][..2] == t[..2]; }
    assert DecimalValue(t[..4]) == 9999 by { assert t[..4][..3] == t[..3]; }
    assert DecimalValue(t[..5]) == 99999 by { assert t[..5][..4] == t[..4]; }
    assert DecimalValue(t[..6]) == 999999 by { assert t[..6][..5] == t[..5]; }
    assert DecimalValue(t[..7]) == 9999999 by { assert t[..7][..6] == t[..6]; }
    assert DecimalValue(t[..8]) == 99999999 by { assert t[..8][..7] == t[..7]; }
    assert DecimalValue(t[..9]) == 999999999 by { assert t[..9][..8] == t[..8]; }
    assert t[..10] == t;
  }

  lemma RejectsIntOverflow()
    ensures Stoi("99999999999").OutOfRange?
    ensures !ValidBaseIp("10.0.99999999999")
  {
    var big := "99999999999";
    TenNinesValue();
    assert big[..10] == "9999999999";
    PrefixValueBound(big, 10);
    assert "10.0.99999999999" == "10" + "." + "0" + "." + big;
    ValidBaseIpIff("10", "0", big);
  }

  lemma RejectsNonDigits()
    ensures !ValidBaseIp("abc.def.ghi") && !ValidBaseIp("10.+1.1")
  {
    assert "abc.def.ghi" == "abc" + "." + "def" + "." + "ghi";
    ValidBaseIpIff("abc", "def", "ghi");
    assert !IsDigit("abc"[0]);
    assert "10.+1.1" == "10" + "." + "+1" + "." + "1";
    ValidBaseIpIff("10", "+1", "1");
    assert !IsDigit("+1"[0]);
  }

  lemma RejectsEmptyPart()
    ensures !ValidBaseIp("10..1")
  {
    assert "10..1" == "10" + "." + "" + "." + "1";
    ValidBaseIpIff("10", "", "1");
  }
}
