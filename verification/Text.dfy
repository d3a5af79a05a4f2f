/** Text as the Go standard library treats it: trimming, case, lines and byte order. */
module Text {
  import opened Lists

  predicate IsSpace(c: char) {
    || '\t' <= c <= '\r' || c == ' ' || c == '\U{85}' || c == '\U{A0}' || c == '\U{1680}'
    || '\U{2000}' <= c <= '\U{200A}' || c == '\U{2028}' || c == '\U{2029}'
    || c == '\U{202F}' || c == '\U{205F}' || c == '\U{3000}'
  }

  function TrimLeft(s: string): (r: string)
    ensures |r| <= |s|
    ensures r != "" ==> !IsSpace(r[0])
    ensures s != "" && !IsSpace(s[0]) ==> r == s
    ensures forall c :: c in r ==> c in s
  {
    if s != "" && IsSpace(s[0]) then TrimLeft(s[1..]) else s
  }

  function TrimRight(s: string): (r: string)
    ensures |r| <= |s|
    ensures r != "" ==> !IsSpace(r[|r|-1]) && r[0] == s[0]
    ensures s != "" && !IsSpace(s[|s|-1]) ==> r == s
    ensures forall c :: c in r ==> c in s
  {
    if s != "" && IsSpace(s[|s|-1]) then TrimRight(s[..|s|-1]) else s
  }

  predicate Trimmed(s: string) {
    s != "" ==> !IsSpace(s[0]) && !IsSpace(s[|s|-1])
  }

  function TrimSpace(s: string): (r: string)
    ensures Trimmed(r)
    ensures Trimmed(s) ==> r == s
    ensures forall c :: c in r ==> c in s
  {
    TrimRight(TrimLeft(s))
  }

  function LowerChar(c: char): (r: char)
    ensures IsSpace(c) <==> IsSpace(r)
    ensures c == r || ('A' <= c <= 'Z' && 'a' <= r <= 'z')
  {
    if 'A' <= c <= 'Z' then (c as int + 32) as char else c
  }

  function ToLower(s: string): (r: string)
    ensures |r| == |s| && forall i :: 0 <= i < |s| ==> r[i] == LowerChar(s[i])
  {
    Map(s, LowerChar)
  }

  predicate IsLower(s: string) {
    ToLower(s) == s
  }

  lemma LowerIdempotent(s: string)
    ensures ToLower(ToLower(s)) == ToLower(s)
  {
  }

  lemma LowerTrimmed(s: string)
    requires Trimmed(s)
    ensures Trimmed(ToLower(s)) && TrimSpace(ToLower(s)) == ToLower(s)
  {
  }

  /** Upper case, with the two letters outside ASCII that map into it. */
  function UpperChar(c: char): char {
    if 'a' <= c <= 'z' then (c as int - 32) as char
    else if c == '\U{17F}' then 'S'
    else if c == '\U{131}' then 'I'
    else c
  }

  function ToUpper(s: string): (r: string)
    ensures |r| == |s| && forall i :: 0 <= i < |s| ==> r[i] == UpperChar(s[i])
  {
    Map(s, UpperChar)
  }

  /** Simple case folding, with the two letters outside ASCII that fold into it. */
  function FoldChar(c: char): char {
    if c == '\U{17F}' then 's' else if c == '\U{212A}' then 'k' else LowerChar(c)
  }

  predicate EqualFold(a: string, b: string) {
    |a| == |b| && forall i :: 0 <= i < |a| ==> FoldChar(a[i]) == FoldChar(b[i])
  }

  predicate HasPrefix(s: string, prefix: string) {
    prefix <= s
  }

  /** Case conversion keeps a letter's place in the alphabet, and leaves other ASCII characters alone. */
  lemma LetterCase(c: char)
    requires c < 128 as char
    ensures 'A' <= c <= 'Z' ==> LowerChar(c) == FoldChar(c) && LowerChar(c) - 'a' == c - 'A' && UpperChar(c) == c
    ensures 'a' <= c <= 'z' ==> LowerChar(c) == FoldChar(c) == c && UpperChar(c) - 'A' == c - 'a'
    ensures !('A' <= c <= 'Z') && !('a' <= c <= 'z') ==> LowerChar(c) == UpperChar(c) == FoldChar(c) == c
  {
  }

  /** Among ASCII text, folding compares the lower-case forms. */
  lemma FoldExactly(a: string, b: string)
    requires forall c :: c in a || c in b ==> c < 128 as char
    ensures EqualFold(a, b) <==> ToLower(a) == ToLower(b)
  {
    hide LowerChar;
    forall i | 0 <= i < |a| ensures FoldChar(a[i]) == LowerChar(a[i]) { assert a[i] in a; }
    forall i | 0 <= i < |b| ensures FoldChar(b[i]) == LowerChar(b[i]) { assert b[i] in b; }
    hide FoldChar;
    if ToLower(a) == ToLower(b) {
      assert |a| == |b|;
      assert forall i :: 0 <= i < |a| ==> ToLower(a)[i] == ToLower(b)[i];
    }
  }

  lemma AsciiSpace(c: char)
    requires c < 128 as char
    ensures IsSpace(c) <==> c in "\t\n\U{B}\U{C}\r "
  {
  }

  ghost predicate AllSpace(s: string) {
    forall c :: c in s ==> IsSpace(c)
  }

  lemma {:induction false} TrimLeftExactly(s: string)
    ensures var k := |s| - |TrimLeft(s)|; AllSpace(s[..k]) && TrimLeft(s) == s[k..]
  {
    if s != "" && IsSpace(s[0]) {
      TrimLeftExactly(s[1..]);
      var k := |s| - |TrimLeft(s)|;
      assert s[..k] == [s[0]] + s[1..][..k-1];
    }
  }

  lemma {:induction false} TrimRightExactly(s: string)
    ensures var k := |TrimRight(s)|; AllSpace(s[k..]) && TrimRight(s) == s[..k]
  {
    if s != "" && IsSpace(s[|s|-1]) {
      var front, k := s[..|s|-1], |TrimRight(s)|;
      TrimRightExactly(front);
      assert s[k..] == front[k..] + [s[|s|-1]] && s[..k] == front[..k];
    }
  }

  /** Trimming takes white space off both ends, and what is left neither begins nor ends with it. */
  lemma TrimExactly(s: string) returns (left: string, right: string)
    ensures s == left + TrimSpace(s) + right && AllSpace(left) && AllSpace(right) && Trimmed(TrimSpace(s))
  {
    TrimLeftExactly(s);
    TrimRightExactly(TrimLeft(s));
    hide TrimLeft, TrimRight, AllSpace, Trimmed;
    var t, k := TrimLeft(s), |TrimSpace(s)|;
    left, right := s[..|s|-|t|], t[k..];
    assert t == TrimSpace(s) + right;
  }

  // ----- lines -----

  function Split(s: string, sep: char): (r: seq<string>)
    ensures |r| >= 1
  {
    if s == "" then [""]
    else
      var rest := Split(s[1..], sep);
      if s[0] == sep then [""] + rest else [[s[0]] + rest[0]] + rest[1..]
  }

  function Join(parts: seq<string>, sep: char): (r: string) {
    if parts == [] then ""
    else if |parts| == 1 then parts[0]
    else parts[0] + [sep] + Join(parts[1..], sep)
  }

  lemma {:induction false} SplitPrefix(head: string, tail: string, sep: char)
    requires sep !in head
    ensures Split(head + [sep] + tail, sep) == [head] + Split(tail, sep)
  {
    var s := head + [sep] + tail;
    if head == "" {
      assert s[1..] == tail;
    } else {
      SplitPrefix(head[1..], tail, sep);
      assert s[1..] == head[1..] + [sep] + tail;
      assert [head[0]] + head[1..] == head;
    }
  }

  lemma {:induction false} SplitPlain(s: string, sep: char)
    requires sep !in s
    ensures Split(s, sep) == [s]
  {
    if s != "" {
      SplitPlain(s[1..], sep);
      assert [s[0]] + s[1..] == s;
    }
  }

  /** Splitting a newline-terminated join gives the lines back, and one empty tail. */
  lemma {:induction false} SplitOfJoin(parts: seq<string>, sep: char)
    requires parts != []
    requires forall p :: p in parts ==> sep !in p
    ensures Split(Join(parts, sep) + [sep], sep) == parts + [""]
    ensures Split(Join(parts, sep), sep) == parts
  {
    if |parts| == 1 {
      assert parts == [parts[0]];
      assert parts[0] + [sep] == parts[0] + [sep] + "";
      SplitPrefix(parts[0], "", sep);
      SplitPlain(parts[0], sep);
    } else {
      var rest := Join(parts[1..], sep);
      assert Join(parts, sep) == parts[0] + [sep] + rest;
      hide Split, Join;
      SplitOfJoin(parts[1..], sep);
      assert Join(parts, sep) + [sep] == parts[0] + [sep] + (rest + [sep]);
      SplitPrefix(parts[0], rest + [sep], sep);
      SplitPrefix(parts[0], rest, sep);
      assert parts == [parts[0]] + parts[1..];
    }
  }

  // ----- order -----

  predicate Less(a: string, b: string) {
    b != "" && (a == "" || a[0] < b[0] || (a[0] == b[0] && Less(a[1..], b[1..])))
  }

  predicate LessEq(a: string, b: string) {
    a == b || Less(a, b)
  }

  /** Byte order: the texts agree up to some place, where the first ends or has the smaller character. */
  lemma {:induction false} LessExactly(a: string, b: string)
    ensures Less(a, b) <==>
            exists k: nat :: k <= |a| && k < |b| && a[..k] == b[..k] && (k == |a| || a[k] < b[k])
  {
    if a != "" && b != "" && a[0] == b[0] {
      LessExactly(a[1..], b[1..]);
      if Less(a[1..], b[1..]) {
        var k: nat :| k <= |a[1..]| && k < |b[1..]| && a[1..][..k] == b[1..][..k]
                      && (k == |a[1..]| || a[1..][k] < b[1..][k]);
        assert a[..k+1] == [a[0]] + a[1..][..k] && b[..k+1] == [b[0]] + b[1..][..k];
      }
      if k: nat :| k <= |a| && k < |b| && a[..k] == b[..k] && (k == |a| || a[k] < b[k]) {
        assert k > 0 && a[1..][..k-1] == a[..k][1..] && b[1..][..k-1] == b[..k][1..];
      }
    } else if b != "" && Less(a, b) {
      assert a[..0] == b[..0];
    } else if a != "" && b != "" {
      assert forall k: nat :: 0 < k <= |a| && k < |b| && a[..k] == b[..k] ==> a[..k][0] == b[..k][0];
    }
  }

  lemma {:induction false} LessTotal(a: string, b: string)
    ensures a == b || Less(a, b) || Less(b, a)
    ensures !(Less(a, b) && Less(b, a)) && !Less(a, a)
  {
    if a != "" {
      LessTotal(a[1..], a[1..]);
      if b != "" {
        LessTotal(a[1..], b[1..]);
        if a[0] == b[0] && a[1..] == b[1..] {
          assert a == [a[0]] + a[1..] && b == [b[0]] + b[1..];
        }
      }
    }
  }

  lemma {:induction false} LessTransitive(a: string, b: string, c: string)
    requires Less(a, b) && Less(b, c)
    ensures Less(a, c)
  {
    if a != "" && a[0] == b[0] && b[0] == c[0] {
      LessTransitive(a[1..], b[1..], c[1..]);
    }
  }
}
