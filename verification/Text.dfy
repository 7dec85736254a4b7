/** Strings as Qt treats them: trimming, splitting, searching and comparing. */
module Text {

  predicate IsSpace(c: char) {
    c == ' ' || '\t' <= c <= '\r'
  }

  function TrimLeft(s: string): (r: string)
  {
    if s != "" && IsSpace(s[0]) then TrimLeft(s[1..]) else s
  }

  function TrimRight(s: string): (r: string)
  {
    if s != "" && IsSpace(s[|s| - 1]) then TrimRight(s[..|s| - 1]) else s
  }

  /** QString::trimmed. */
  function Trimmed(s: string): string {
    TrimRight(TrimLeft(s))
  }

  /** QString::split, which keeps empty parts. */
  function Split(s: string, c: char): (parts: seq<string>)
    ensures |parts| > 0
    ensures forall i :: 0 <= i < |parts| ==> c !in parts[i] && forall x :: x in parts[i] ==> x in s
  {
    if s == "" then [""]
    else
      var rest := Split(s[1..], c);
      if s[0] == c then [""] + rest else [[s[0]] + rest[0]] + rest[1..]
  }

  lemma {:induction false} SplitFirst(a: string, c: char, b: string)
    requires c !in a
    ensures Split(a + [c] + b, c) == [a] + Split(b, c)
    ensures Split(a, c) == [a]
  {
    if a == "" {
      assert (a + [c] + b)[1..] == b;
    } else {
      SplitFirst(a[1..], c, b);
      assert a[0] in a && a == [a[0]] + a[1..];
      assert (a + [c] + b)[1..] == a[1..] + [c] + b;
    }
  }

  function Occurrences(s: string, c: char): nat {
    if s == "" then 0 else (if s[0] == c then 1 else 0) + Occurrences(s[1..], c)
  }

  lemma {:induction false} OccurrencesConcat(a: string, b: string, c: char)
    ensures Occurrences(a + b, c) == Occurrences(a, c) + Occurrences(b, c)
  {
    if a == "" {
      assert a + b == b;
    } else {
      OccurrencesConcat(a[1..], b, c);
      assert (a + b)[1..] == a[1..] + b;
    }
  }

  lemma {:induction false} OccursOrNot(s: string, c: char)
    ensures Occurrences(s, c) == 0 <==> c !in s
  {
    if s == "" {
    } else {
      OccursOrNot(s[1..], c);
    }
  }

  /** There is one part more than there are separators. */
  lemma {:induction false} SplitCount(s: string, c: char)
    ensures |Split(s, c)| == Occurrences(s, c) + 1
  {
    if s == "" {
    } else {
      SplitCount(s[1..], c);
    }
  }

  /** What follows the last separator, or everything if there is none. */
  function LastPart(s: string, c: char): string {
    var parts := Split(s, c);
    parts[|parts| - 1]
  }

  lemma LastPartStep(s: string, c: char)
    ensures c !in s ==> LastPart(s, c) == s
    ensures s != "" && (s[0] == c || c in s[1..]) ==> LastPart(s, c) == LastPart(s[1..], c)
  {
    if c !in s {
      SplitFirst(s, c, "");
    } else {
      SplitCount(s[1..], c);
      OccursOrNot(s[1..], c);
    }
  }

  lemma {:induction false} LastPartOf(a: string, c: char, b: string)
    requires c !in b
    ensures LastPart(a + [c] + b, c) == b
    decreases |a|
  {
    var s := a + [c] + b;
    LastPartStep(s, c);
    if a == "" {
      assert s[1..] == b;
      LastPartStep(b, c);
    } else {
      assert s[1..] == a[1..] + [c] + b;
      assert s[1..][|a| - 1] == c;
      LastPartOf(a[1..], c, b);
    }
  }

  lemma {:induction false} LastPartCuts(s: string, c: char) returns (a: string)
    ensures c !in LastPart(s, c) && s == a + LastPart(s, c)
    ensures a == "" || a[|a| - 1] == c
    ensures c in s ==> a != ""
  {
    LastPartStep(s, c);
    if c !in s {
      a := "";
    } else {
      a := LastPartCuts(s[1..], c);
      a := [s[0]] + a;
      assert s == [s[0]] + s[1..];
    }
  }

  lemma TrimmedKeeps(s: string)
    requires s != "" && !IsSpace(s[0]) && !IsSpace(s[|s| - 1])
    ensures Trimmed(s) == s
    ensures Trimmed(s + "\n") == s
  {
  }

  predicate IsDigit(c: char) {
    '0' <= c <= '9'
  }

  predicate AllDigits(s: string) {
    forall i :: 0 <= i < |s| ==> '0' <= s[i] <= '9'
  }

  predicate Blank(s: string) {
    forall i :: 0 <= i < |s| ==> s[i] == ' ' || '\t' <= s[i] <= '\r'
  }

  lemma {:induction false} TrimLeftOfBlanks(a: string, s: string)
    requires Blank(a) && (s == "" || !IsSpace(s[0]))
    ensures TrimLeft(a + s) == s
  {
    if a == "" {
      assert a + s == s;
    } else {
      assert (a + s)[0] == a[0] && (a + s)[1..] == a[1..] + s;
      TrimLeftOfBlanks(a[1..], s);
    }
  }

  lemma {:induction false} TrimRightOfBlanks(s: string, b: string)
    requires Blank(b) && (s == "" || !IsSpace(s[|s| - 1]))
    ensures TrimRight(s + b) == s
  {
    if b == "" {
      assert s + b == s;
    } else {
      var n := |b| - 1;
      assert (s + b)[|s| + n] == b[n] && (s + b)[..|s| + n] == s + b[..n];
      TrimRightOfBlanks(s, b[..n]);
    }
  }

  lemma TrimsBlanks(a: string, s: string, b: string)
    requires Blank(a) && Blank(b) && s != "" && !IsSpace(s[0]) && !IsSpace(s[|s| - 1])
    ensures Trimmed(a + s + b) == s
  {
    assert a + s + b == a + (s + b);
    TrimLeftOfBlanks(a, s + b);
    TrimRightOfBlanks(s, b);
  }

  lemma {:induction false} TrimLeftCuts(s: string) returns (a: string)
    ensures Blank(a) && s == a + TrimLeft(s)
  {
    if s != "" && IsSpace(s[0]) {
      a := TrimLeftCuts(s[1..]);
      a := [s[0]] + a;
      assert s == [s[0]] + s[1..];
    } else {
      a := "";
    }
  }

  lemma {:induction false} TrimRightCuts(s: string) returns (b: string)
    ensures Blank(b) && s == TrimRight(s) + b
  {
    if s != "" && IsSpace(s[|s| - 1]) {
      var n := |s| - 1;
      b := TrimRightCuts(s[..n]);
      assert s == s[..n] + [s[n]];
      b := b + [s[n]];
    } else {
      b := "";
    }
  }

  /** A string is what trimming leaves between blanks. */
  lemma TrimmedCuts(s: string) returns (a: string, b: string)
    ensures Blank(a) && Blank(b) && s == a + Trimmed(s) + b
  {
    a := TrimLeftCuts(s);
    b := TrimRightCuts(TrimLeft(s));
    assert a + (Trimmed(s) + b) == a + Trimmed(s) + b;
  }

  lemma {:induction false} LeftKeepsOthers(s: string, x: char)
    requires x in s && !IsSpace(x)
    ensures x in TrimLeft(s)
  {
    if IsSpace(s[0]) {
      LeftKeepsOthers(s[1..], x);
    }
  }

  lemma {:induction false} RightKeepsOthers(s: string, x: char)
    requires x in s && !IsSpace(x)
    ensures x in TrimRight(s)
  {
    if IsSpace(s[|s| - 1]) {
      RightKeepsOthers(s[..|s| - 1], x);
    }
  }

  /** Trimming takes away blanks only. */
  lemma TrimmedKeepsOthers(s: string, x: char)
    requires x in s && !IsSpace(x)
    ensures x in Trimmed(s)
  {
    LeftKeepsOthers(s, x);
    RightKeepsOthers(TrimLeft(s), x);
  }

  // ----- searching

  /** QString::contains. */
  predicate Contains(s: string, t: string) {
    t <= s || (s != "" && Contains(s[1..], t))
  }

  predicate OccursAt(s: string, t: string, i: nat) {
    i + |t| <= |s| && s[i..i + |t|] == t
  }

  lemma OccursInTail(s: string, t: string, i: nat)
    requires s != ""
    ensures OccursAt(s, t, i + 1) <==> OccursAt(s[1..], t, i)
  {
    if i + |t| <= |s| - 1 {
      assert s[1..][i..i + |t|] == s[i + 1..i + 1 + |t|];
    }
  }

  lemma OccursInFront(s: string, t: string)
    ensures OccursAt(s, t, 0) <==> t <= s
  {
  }

  lemma TooShort(t: string, i: nat)
    requires OccursAt("", t, i)
    ensures t == ""
  {
  }

  lemma {:induction false} ContainsIff(s: string, t: string)
    ensures Contains(s, t) <==> exists i: nat :: OccursAt(s, t, i)
  {
    hide OccursAt;
    OccursInFront(s, t);
    if s == "" {
      if i: nat :| OccursAt(s, t, i) {
        TooShort(t, i);
      }
    } else {
      ContainsIff(s[1..], t);
      if i: nat :| OccursAt(s[1..], t, i) {
        OccursInTail(s, t, i);
      }
      if i: nat :| OccursAt(s, t, i) && i > 0 {
        OccursInTail(s, t, i - 1);
      }
    }
  }

  function Upper(c: char): char {
    if 'a' <= c <= 'z' then c - 'a' + 'A' else c
  }

  function UpperText(s: string): (r: string)
    ensures |r| == |s| && forall i :: 0 <= i < |s| ==> r[i] == Upper(s[i])
  {
    seq(|s|, i requires 0 <= i < |s| => Upper(s[i]))
  }

  // ----- comparing

  /** QString's order. */
  predicate Less(a: string, b: string) {
    b != "" && (a == "" || a[0] < b[0] || (a[0] == b[0] && Less(a[1..], b[1..])))
  }

  /** The shared beginning decides: where the strings first differ, or that one of them ends there. */
  ghost predicate FirstDifference(a: string, b: string, k: nat) {
    && k <= |a| && k <= |b| && a[..k] == b[..k]
    && k < |b| && (k == |a| || a[k] < b[k])
  }

  lemma {:induction false} LessMeans(a: string, b: string)
    ensures Less(a, b) <==> exists k: nat :: FirstDifference(a, b, k)
  {
    if a == "" || b == "" {
      assert Less(a, b) ==> FirstDifference(a, b, 0);
    } else {
      LessMeans(a[1..], b[1..]);
      if k: nat :| FirstDifference(a[1..], b[1..], k) && a[0] == b[0] {
        assert a[..k + 1] == [a[0]] + a[1..][..k] && b[..k + 1] == [b[0]] + b[1..][..k];
        assert FirstDifference(a, b, k + 1);
      }
      if a[0] < b[0] {
        assert FirstDifference(a, b, 0);
      }
      if k: nat :| FirstDifference(a, b, k) && k > 0 {
        assert a[0] == a[..k][0] == b[..k][0] == b[0];
        assert a[1..][..k - 1] == a[..k][1..] && b[1..][..k - 1] == b[..k][1..];
        assert FirstDifference(a[1..], b[1..], k - 1);
      }
    }
  }

  lemma {:induction false} LessTotal(a: string, b: string)
    ensures a == b || Less(a, b) || Less(b, a)
    ensures !(Less(a, b) && Less(b, a)) && (a == b ==> !Less(a, b))
  {
    if a == "" || b == "" {
    } else {
      LessTotal(a[1..], b[1..]);
      assert a == [a[0]] + a[1..] && b == [b[0]] + b[1..];
    }
  }

  lemma {:induction false} LessTransitive(a: string, b: string, c: string)
    requires Less(a, b) && Less(b, c)
    ensures Less(a, c)
  {
    if a == "" {
    } else {
      if a[0] == b[0] == c[0] {
        LessTransitive(a[1..], b[1..], c[1..]);
      }
    }
  }

  ghost predicate IsLeast(s: set<string>, k: string) {
    k in s && forall m :: m in s ==> m == k || Less(k, m)
  }

  lemma {:induction false} LeastExists(s: set<string>)
    requires s != {}
    ensures exists k :: IsLeast(s, k)
  {
    var x :| x in s;
    if s == {x} {
      assert IsLeast(s, x);
    } else {
      LeastExists(s - {x});
      var y :| IsLeast(s - {x}, y);
      LessTotal(x, y);
      var k := if Less(x, y) then x else y;
      forall m | m in s && m != k ensures Less(k, m) {
        if k == x && m != y {
          LessTransitive(x, y, m);
        }
      }
      assert IsLeast(s, k);
    }
  }
}
