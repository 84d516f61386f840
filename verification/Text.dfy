/** Order and splitting of strings. */
module Text {
  import opened Lists

  /** Python's order on strings, by code point. */
  predicate TextAtMost(a: string, b: string) {
    a == "" || (b != "" && (a[0] < b[0] || (a[0] == b[0] && TextAtMost(a[1..], b[1..]))))
  }

  /** One text is a prefix of the other, or smaller at the first character where they differ. */
  ghost predicate Precedes(a: string, b: string) {
    || a <= b
    || exists k :: 0 <= k < |a| && k < |b| && a[..k] == b[..k] && a[k] < b[k]
  }

  lemma PrecedesShift(a: string, b: string)
    requires a != "" && b != "" && a[0] == b[0]
    ensures Precedes(a, b) <==> Precedes(a[1..], b[1..])
  {
    var x, y := a[1..], b[1..];
    assert a == [a[0]] + x && b == [b[0]] + y;
    if k :| 0 <= k < |x| && k < |y| && x[..k] == y[..k] && x[k] < y[k] {
      assert a[..k + 1] == [a[0]] + x[..k] && b[..k + 1] == [b[0]] + y[..k];
      assert a[k + 1] < b[k + 1];
    }
    if k :| 0 <= k < |a| && k < |b| && a[..k] == b[..k] && a[k] < b[k] {
      assert x[..k - 1] == a[..k][1..] && y[..k - 1] == b[..k][1..];
      assert x[k - 1] < y[k - 1];
    }
  }

  lemma {:induction false} TextOrderExactly(a: string, b: string)
    ensures TextAtMost(a, b) <==> Precedes(a, b)
  {
    if a != "" && b != "" {
      if a[0] == b[0] {
        TextOrderExactly(a[1..], b[1..]);
        PrecedesShift(a, b);
      } else {
        assert a[..0] == b[..0];
        if k :| 0 <= k < |a| && k < |b| && a[..k] == b[..k] && a[k] < b[k] {
          assert k > 0 ==> a[..k][0] == b[..k][0];
        }
      }
    }
  }

  lemma {:induction false} TextIsTransitive(a: string, b: string, c: string)
    requires TextAtMost(a, b) && TextAtMost(b, c)
    ensures TextAtMost(a, c)
  {
    if a != "" && a[0] == b[0] && b[0] == c[0] {
      TextIsTransitive(a[1..], b[1..], c[1..]);
    }
  }

  /** The order of Python's tuples of texts. */
  predicate TextsAtMost(a: seq<string>, b: seq<string>) {
    a == [] || (b != [] && (if a[0] != b[0] then TextAtMost(a[0], b[0]) else TextsAtMost(a[1..], b[1..])))
  }

  /** One list starts the other, or the first texts in which they differ decide. */
  ghost predicate KeysInOrder(a: seq<string>, b: seq<string>) {
    || a <= b
    || exists k :: 0 <= k < |a| && k < |b| && a[..k] == b[..k] && a[k] != b[k] && Precedes(a[k], b[k])
  }

  lemma KeysInOrderShift(a: seq<string>, b: seq<string>)
    requires a != [] && b != [] && a[0] == b[0]
    ensures KeysInOrder(a, b) <==> KeysInOrder(a[1..], b[1..])
  {
    hide Precedes;
    var x, y := a[1..], b[1..];
    assert a == [a[0]] + x && b == [b[0]] + y;
    if k :| 0 <= k < |x| && k < |y| && x[..k] == y[..k] && x[k] != y[k] && Precedes(x[k], y[k]) {
      assert a[..k + 1] == [a[0]] + x[..k] && b[..k + 1] == [b[0]] + y[..k];
      assert a[k + 1] != b[k + 1] && Precedes(a[k + 1], b[k + 1]);
    }
    if k :| 0 <= k < |a| && k < |b| && a[..k] == b[..k] && a[k] != b[k] && Precedes(a[k], b[k]) {
      assert x[..k - 1] == a[..k][1..] && y[..k - 1] == b[..k][1..];
      assert x[k - 1] != y[k - 1] && Precedes(x[k - 1], y[k - 1]);
    }
  }

  lemma {:induction false} KeyOrderExactly(a: seq<string>, b: seq<string>)
    ensures TextsAtMost(a, b) <==> KeysInOrder(a, b)
  {
    hide TextAtMost, Precedes;
    if a != [] && b != [] {
      if a[0] == b[0] {
        KeyOrderExactly(a[1..], b[1..]);
        KeysInOrderShift(a, b);
      } else {
        TextOrderExactly(a[0], b[0]);
        assert a[..0] == b[..0];
        if k :| 0 <= k < |a| && k < |b| && a[..k] == b[..k] && a[k] != b[k] && Precedes(a[k], b[k]) {
          assert k > 0 ==> a[..k][0] == b[..k][0];
        }
      }
    }
  }

  lemma {:induction false} TextIsTotal(a: string, b: string)
    ensures TextAtMost(a, b) || TextAtMost(b, a)
  {
    if a != "" && b != "" && a[0] == b[0] {
      TextIsTotal(a[1..], b[1..]);
    }
  }

  lemma {:induction false} TextsAreTotal(a: seq<string>, b: seq<string>)
    ensures TextsAtMost(a, b) || TextsAtMost(b, a)
  {
    hide TextAtMost;
    if a != [] && b != [] {
      TextIsTotal(a[0], b[0]);
      TextsAreTotal(a[1..], b[1..]);
    }
  }

  lemma {:induction false} TextIsAntisymmetric(a: string, b: string)
    requires TextAtMost(a, b) && TextAtMost(b, a)
    ensures a == b
  {
    if a != "" && b != "" {
      TextIsAntisymmetric(a[1..], b[1..]);
      assert a == [a[0]] + a[1..] && b == [b[0]] + b[1..];
    }
  }

  lemma {:induction false} TextsAreTransitive(a: seq<string>, b: seq<string>, c: seq<string>)
    requires TextsAtMost(a, b) && TextsAtMost(b, c)
    ensures TextsAtMost(a, c)
  {
    hide TextAtMost;
    if a != [] {
      if a[0] == b[0] && b[0] == c[0] {
        TextsAreTransitive(a[1..], b[1..], c[1..]);
      } else if a[0] != b[0] && b[0] != c[0] {
        TextIsTransitive(a[0], b[0], c[0]);
        if a[0] == c[0] {
          TextIsAntisymmetric(a[0], b[0]);
        }
      }
    }
  }

  /** Sorting by a key of texts keeps the elements and puts their keys in order. */
  lemma SortByKeys<T(!new)>(xs: seq<T>, key: T -> seq<string>, atMost: (T, T) -> bool)
    requires forall a, b :: atMost(a, b) <==> TextsAtMost(key(a), key(b))
    ensures multiset(Sort(xs, atMost)) == multiset(xs)
    ensures forall i, j :: 0 <= i < j < |xs| ==> KeysInOrder(key(Sort(xs, atMost)[i]), key(Sort(xs, atMost)[j]))
  {
    hide TextsAtMost, KeysInOrder, Sort;
    var sorted := Sort(xs, atMost);
    forall a: T, b: T ensures atMost(a, b) || atMost(b, a) {
      TextsAreTotal(key(a), key(b));
    }
    forall a: T, b: T, c: T | atMost(a, b) && atMost(b, c) ensures atMost(a, c) {
      TextsAreTransitive(key(a), key(b), key(c));
    }
    SortKeeps(xs, atMost);
    SortOrders(xs, atMost);
    forall i, j | 0 <= i < j < |xs| ensures KeysInOrder(key(sorted[i]), key(sorted[j])) {
      OrderedThroughout(sorted, atMost, i, j);
      KeyOrderExactly(key(sorted[i]), key(sorted[j]));
    }
  }

  lemma SortTexts(texts: seq<string>)
    ensures multiset(Sort(texts, TextAtMost)) == multiset(texts)
    ensures forall i, j :: 0 <= i < j < |texts| ==> Precedes(Sort(texts, TextAtMost)[i], Sort(texts, TextAtMost)[j])
  {
    hide TextAtMost, Precedes, Sort;
    var sorted := Sort(texts, TextAtMost);
    forall a: string, b: string ensures TextAtMost(a, b) || TextAtMost(b, a) {
      TextIsTotal(a, b);
    }
    forall a: string, b: string, c: string | TextAtMost(a, b) && TextAtMost(b, c) ensures TextAtMost(a, c) {
      TextIsTransitive(a, b, c);
    }
    SortKeeps(texts, TextAtMost);
    SortOrders(texts, TextAtMost);
    forall i, j | 0 <= i < j < |sorted| ensures Precedes(sorted[i], sorted[j]) {
      OrderedThroughout(sorted, TextAtMost, i, j);
      TextOrderExactly(sorted[i], sorted[j]);
    }
  }

  /** The text up to the first dash, or all of it. */
  function FirstPart(s: string): string {
    if s == "" || s[0] == '-' then "" else [s[0]] + FirstPart(s[1..])
  }

  lemma {:induction false} FirstPartExactly(s: string)
    ensures '-' !in FirstPart(s)
    ensures FirstPart(s) == s || FirstPart(s) + "-" <= s
  {
    if s != "" && s[0] != '-' {
      FirstPartExactly(s[1..]);
      assert s == [s[0]] + s[1..];
    }
  }

  /** The characters str.strip removes. */
  predicate IsSpace(c: char) {
    var n := c as int;
    || 0x09 <= n <= 0x0D || 0x1C <= n <= 0x20 || n == 0x85 || n == 0xA0 || n == 0x1680
    || 0x2000 <= n <= 0x200A || n == 0x2028 || n == 0x2029 || n == 0x202F || n == 0x205F || n == 0x3000
  }

  function StripLeft(s: string): string { if s != "" && IsSpace(s[0]) then StripLeft(s[1..]) else s }

  function StripRight(s: string): string {
    if s != "" && IsSpace(s[|s| - 1]) then StripRight(s[..|s| - 1]) else s
  }

  function Strip(s: string): string { StripRight(StripLeft(s)) }

  /** Nothing but characters that str.strip removes. */
  ghost predicate Blank(s: string) { forall c :: c in s ==> IsSpace(c) }

  lemma {:induction false} StripLeftExactly(s: string)
    ensures Blank(StripLeft(s)) <==> Blank(s)
    ensures Blank(s) ==> StripLeft(s) == ""
    ensures StripLeft(s) != "" ==> !IsSpace(StripLeft(s)[0])
  {
    hide IsSpace;
    if s != "" && IsSpace(s[0]) {
      StripLeftExactly(s[1..]);
      assert s == [s[0]] + s[1..];
    }
  }

  lemma {:induction false} StripRightExactly(s: string)
    ensures StripRight(s) == "" <==> Blank(s)
  {
    hide IsSpace;
    if s != "" {
      var front, last := s[..|s| - 1], s[|s| - 1];
      assert s == front + [last];
      StripRightExactly(front);
    }
  }

  /** Stripping leaves nothing exactly of a blank text. */
  lemma StripExactly(s: string)
    ensures Strip(s) == "" <==> Blank(s)
  {
    hide IsSpace;
    StripLeftExactly(s);
    StripRightExactly(StripLeft(s));
  }

  /** From i to j the text neither starts nor ends with a space, and outside it is all space. */
  ghost predicate IsCore(s: string, i: nat, j: nat) {
    && i <= j <= |s| && (i < j ==> !IsSpace(s[i]) && !IsSpace(s[j - 1]))
    && (forall k :: 0 <= k < i ==> IsSpace(s[k])) && (forall k :: j <= k < |s| ==> IsSpace(s[k]))
  }

  lemma {:induction false} StripLeftPlace(s: string) returns (i: nat)
    ensures i <= |s| && StripLeft(s) == s[i..] && (i < |s| ==> !IsSpace(s[i]))
    ensures forall k :: 0 <= k < i ==> IsSpace(s[k])
  {
    hide IsSpace;
    if s != "" && IsSpace(s[0]) {
      i := StripLeftPlace(s[1..]);
      assert s[i + 1..] == s[1..][i..];
      assert forall k :: 0 < k < |s| ==> s[k] == s[1..][k - 1];
      i := i + 1;
    } else {
      i := 0;
    }
  }

  lemma {:induction false} StripRightPlace(s: string) returns (j: nat)
    ensures j <= |s| && StripRight(s) == s[..j] && (j > 0 ==> !IsSpace(s[j - 1]))
    ensures forall k :: j <= k < |s| ==> IsSpace(s[k])
  {
    hide IsSpace;
    if s != "" && IsSpace(s[|s| - 1]) {
      j := StripRightPlace(s[..|s| - 1]);
      assert s[..j] == s[..|s| - 1][..j];
    } else {
      j := |s|;
    }
  }

  /** Stripping leaves what is between blank ends. */
  lemma StripPlaces(s: string) returns (i: nat, j: nat)
    ensures IsCore(s, i, j) && Strip(s) == s[i..j]
  {
    hide IsSpace;
    i := StripLeftPlace(s);
    var k := StripRightPlace(s[i..]);
    j := i + k;
    assert s[i..][..k] == s[i..j];
    assert forall k :: i <= k < |s| ==> s[k] == s[i..][k - i];
  }

  /** The text is this part between blank ends. */
  ghost predicate HasCore(s: string, part: string) { exists i: nat, j: nat :: IsCore(s, i, j) && part == s[i..j] }

  lemma StripIsCore(s: string)
    ensures HasCore(s, Strip(s))
  {
    hide IsSpace, Strip;
    var i, j := StripPlaces(s);
  }

  lemma OneCore(s: string, p: string, q: string)
    requires HasCore(s, p) && HasCore(s, q) && p != ""
    ensures p == q
  {
    hide IsSpace;
  }

  function LowerChar(c: char): char { if 'A' <= c <= 'Z' then (c as int + 32) as char else c }

  function UpperChar(c: char): char { if 'a' <= c <= 'z' then (c as int - 32) as char else c }

  /** The letters a to z are exactly those that upper case changes, each to a letter that lower case changes back. */
  lemma CasesInvert(c: char)
    ensures 'a' <= c <= 'z' <==> UpperChar(c) != c
    ensures 'a' <= c <= 'z' ==> 'A' <= UpperChar(c) <= 'Z' && LowerChar(UpperChar(c)) == c
    ensures !('A' <= c <= 'Z') ==> LowerChar(c) == c
  {
  }

  function Upper(s: string): (r: string)
    ensures |r| == |s| && forall i :: 0 <= i < |r| ==> r[i] == UpperChar(s[i])
  {
    if s == "" then "" else [UpperChar(s[0])] + Upper(s[1..])
  }

  function Lower(s: string): (r: string)
    ensures |r| == |s| && forall i :: 0 <= i < |r| ==> r[i] == LowerChar(s[i])
  {
    if s == "" then "" else [LowerChar(s[0])] + Lower(s[1..])
  }
}
