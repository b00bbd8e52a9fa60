/** The subset of Go's `strings` package that the core relies on, as
    functions on `string` (a sequence of characters; one character stands for
    one byte of the Go string, which is exact for ASCII text). */
module Text {
  import opened Common

  /** Go's `unicode.IsSpace`. */
  predicate IsSpace(c: char) {
    c == '\t' || c == '\n' || c == '\U{B}' || c == '\U{C}' || c == '\r' || c == ' '
    || c == '\U{85}' || c == '\U{A0}' || c == '\U{1680}'
    || ('\U{2000}' <= c <= '\U{200A}')
    || c == '\U{2028}' || c == '\U{2029}' || c == '\U{202F}' || c == '\U{205F}' || c == '\U{3000}'
  }

  predicate AllSpace(s: string) {
    forall i :: 0 <= i < |s| ==> IsSpace(s[i])
  }

  /** `strings.TrimLeftFunc(s, unicode.IsSpace)`: drops the leading white space. */
  function TrimLeft(s: string): (r: string)
    ensures |r| <= |s| && r == s[|s| - |r|..]
    ensures r != [] ==> !IsSpace(r[0])
    ensures forall i :: 0 <= i < |s| - |r| ==> IsSpace(s[i])
    decreases |s|
  {
    if s != [] && IsSpace(s[0]) then TrimLeft(s[1..]) else s
  }

  /** `strings.TrimRightFunc(s, unicode.IsSpace)`: drops the trailing white space. */
  function TrimRight(s: string): (r: string)
    ensures |r| <= |s| && r == s[..|r|]
    ensures r != [] ==> !IsSpace(r[|r| - 1])
    ensures forall i :: |r| <= i < |s| ==> IsSpace(s[i])
    decreases |s|
  {
    if s != [] && IsSpace(s[|s| - 1]) then TrimRight(s[..|s| - 1]) else s
  }

  /** `strings.TrimSpace`: the text between the leading and the trailing white space. */
  function TrimSpace(s: string): (r: string)
    ensures |r| <= |s|
    ensures r != [] ==> !IsSpace(r[0]) && !IsSpace(r[|r| - 1])
    ensures r == [] <==> AllSpace(s)
  {
    var l := TrimLeft(s);
    var r := TrimRight(l);
    assert r == [] ==> AllSpace(s) by {
      if r == [] {
        assert l == [];
      }
    }
    assert AllSpace(s) ==> l == [] by {
      if l != [] { assert s[|s| - |l|] == l[0]; }
    }
    r
  }

  lemma {:induction false} TrimSpaceIdempotent(s: string)
    ensures TrimSpace(TrimSpace(s)) == TrimSpace(s)
  {
    var t := TrimSpace(s);
    assert TrimLeft(t) == t;
    assert TrimRight(t) == t;
  }

  lemma TrimSpaceOfUnpadded(s: string)
    requires s != [] ==> !IsSpace(s[0]) && !IsSpace(s[|s| - 1])
    ensures TrimSpace(s) == s
  {
    assert TrimLeft(s) == s;
  }

  /** Trimming adds no character. */
  lemma TrimSpaceFree(s: string, c: char)
    requires c !in s
    ensures c !in TrimSpace(s)
  {
    var l := TrimLeft(s);
    forall i | 0 <= i < |l| ensures l[i] != c {
      assert l[i] == s[|s| - |l| + i];
    }
    var r := TrimRight(l);
    forall i | 0 <= i < |r| ensures r[i] != c {
      assert r[i] == l[i];
    }
    assert TrimSpace(s) == r;
  }

  /** A trailing white-space character makes no difference to TrimSpace. */
  lemma TrimSpaceDropsSpace(s: string, c: char)
    requires IsSpace(c)
    ensures TrimSpace(s + [c]) == TrimSpace(s)
  {
    TrimLeftAppend(s, c);
    if !AllSpace(s) {
      var l := TrimLeft(s);
      assert TrimRight(l + [c]) == TrimRight(l) by {
        assert (l + [c])[..|l + [c]| - 1] == l;
      }
    }
  }

  lemma {:induction false} TrimLeftAppend(s: string, c: char)
    requires IsSpace(c)
    ensures TrimLeft(s + [c]) == if AllSpace(s) then [] else TrimLeft(s) + [c]
    decreases |s|
  {
    if s == [] {
      assert [c][1..] == [];
    } else {
      assert (s + [c])[0] == s[0] && (s + [c])[1..] == s[1..] + [c];
      TrimLeftAppend(s[1..], c);
      AllSpaceCons(s);
    }
  }

  lemma AllSpaceCons(s: string)
    requires s != []
    ensures AllSpace(s) <==> IsSpace(s[0]) && AllSpace(s[1..])
  {
    if IsSpace(s[0]) && AllSpace(s[1..]) {
      forall i | 0 <= i < |s| ensures IsSpace(s[i]) { if i > 0 { assert s[i] == s[1..][i - 1]; } }
    }
  }

  predicate HasPrefix(s: string, p: string) {
    |p| <= |s| && s[..|p|] == p
  }

  predicate HasSuffix(s: string, p: string) {
    |p| <= |s| && s[|s| - |p|..] == p
  }

  /** `p` occurs in `s` starting at index `i`. */
  predicate IsAt(s: string, p: string, i: nat) {
    i + |p| <= |s| && s[i..i + |p|] == p
  }

  /** `strings.Contains`. */
  predicate Contains(s: string, p: string) {
    exists i: nat :: i <= |s| && IsAt(s, p, i)
  }

  /** An occurrence of `p` inside a slice is an occurrence in the whole text. */
  lemma IsAtSlice(s: string, p: string, lo: nat, hi: nat, q: nat)
    requires lo <= hi <= |s|
    ensures IsAt(s[lo..hi], p, q) ==> IsAt(s, p, lo + q)
    ensures q + |p| <= hi - lo && IsAt(s, p, lo + q) ==> IsAt(s[lo..hi], p, q)
  {
    if q + |p| <= hi - lo {
      forall j | q <= j < q + |p| ensures s[lo..hi][j] == s[lo + j] {
      }
      assert s[lo..hi][q..q + |p|] == s[lo + q..lo + q + |p|];
    }
  }

  /** An occurrence stays one when text is added on either side. */
  lemma IsAtAppend(a: string, b: string, p: string, q: nat)
    requires IsAt(a, p, q)
    ensures IsAt(a + b, p, q) && IsAt(b + a, p, |b| + q)
  {
    assert (a + b)[q..q + |p|] == a[q..q + |p|];
    assert (b + a)[|b| + q..|b| + q + |p|] == a[q..q + |p|];
  }

  /** Containment survives adding text on either side. */
  lemma ContainsAppend(a: string, b: string, p: string)
    requires Contains(a, p)
    ensures Contains(a + b, p) && Contains(b + a, p)
  {
    var q: nat :| q <= |a| && IsAt(a, p, q);
    IsAtAppend(a, b, p, q);
  }

  /** A text contains each of its parts. */
  lemma ContainsPart(a: string, p: string, b: string)
    ensures Contains(a + p + b, p)
  {
    assert (a + p + b)[|a|..|a| + |p|] == p;
    assert IsAt(a + p + b, p, |a|);
  }

  /** The index of the first `c` in `s` at or after `from`: `strings.IndexByte`
      of the suffix, shifted back to an index of `s` (None for -1). */
  function IndexOfCharFrom(s: string, c: char, from: nat): (r: Option<nat>)
    requires from <= |s|
    ensures r.None? ==> forall j :: from <= j < |s| ==> s[j] != c
    ensures r.Some? ==> from <= r.value < |s| && s[r.value] == c
    ensures r.Some? ==> forall j :: from <= j < r.value ==> s[j] != c
    decreases |s| - from
  {
    if from == |s| then None
    else if s[from] == c then Some(from)
    else IndexOfCharFrom(s, c, from + 1)
  }

  /** The first `c` is found where it occurs with none before it. */
  lemma IndexOfCharFromAt(s: string, c: char, from: nat, k: nat)
    requires from <= k < |s| && s[k] == c
    requires forall j :: from <= j < k ==> s[j] != c
    ensures IndexOfCharFrom(s, c, from) == Some(k)
  {
  }

  /** `strings.LastIndex`: the largest index at which `p` occurs (None for -1). */
  function LastIndex(s: string, p: string): (r: Option<nat>)
    ensures r.None? ==> forall i: nat :: !IsAt(s, p, i)
    ensures r.Some? ==> IsAt(s, p, r.value) && forall j: nat :: r.value < j ==> !IsAt(s, p, j)
    decreases |s|
  {
    if |s| < |p| then None
    else if s[|s| - |p|..] == p then Some(|s| - |p|)
    else
      var r := LastIndex(s[..|s| - 1], p);
      assert !IsAt(s, p, |s| - |p|) by { assert s[|s| - |p|..|s|] == s[|s| - |p|..]; }
      assert forall i: nat :: IsAt(s, p, i) ==> i + |p| < |s| && IsAt(s[..|s| - 1], p, i) by {
        forall i: nat | IsAt(s, p, i) ensures i + |p| < |s| && IsAt(s[..|s| - 1], p, i) {
          assert s[..|s| - 1][i..i + |p|] == s[i..i + |p|];
        }
      }
      if r.Some? then
        assert s[..|s| - 1][r.value..r.value + |p|] == s[r.value..r.value + |p|];
        r
      else r
  }

  /** `strings.Count` for a non-empty pattern: the number of non-overlapping
      occurrences found scanning left to right. */
  function Count(s: string, p: string): nat
    requires |p| > 0
    decreases |s|
  {
    if |s| < |p| then 0
    else if s[..|p|] == p then 1 + Count(s[|p|..], p)
    else Count(s[1..], p)
  }

  /** The number of indices at which `p` starts, overlapping ones included. */
  function CountOverlapping(s: string, p: string): nat
    requires |p| > 0
    decreases |s|
  {
    if |s| < |p| then 0
    else (if s[..|p|] == p then 1 else 0) + CountOverlapping(s[1..], p)
  }

  /** One step of CountOverlapping at index `i`. */
  lemma CountOverlappingStep(s: string, p: string, i: nat)
    requires |p| > 0 && i < |s|
    ensures CountOverlapping(s[i..], p) == (if IsAt(s, p, i) then 1 else 0) + CountOverlapping(s[i + 1..], p)
  {
    assert s[i..][1..] == s[i + 1..];
    if |s[i..]| >= |p| {
      assert s[i..][..|p|] == s[i..i + |p|];
    }
  }

  /** A text in which `p` does not occur has no occurrence to count. */
  lemma {:induction false} CountAbsent(s: string, p: string)
    requires |p| > 0 && !Contains(s, p)
    ensures Count(s, p) == 0 && CountOverlapping(s, p) == 0
    decreases |s|
  {
    if |s| >= |p| {
      assert !IsAt(s, p, 0);
      assert !Contains(s[1..], p) by {
        forall i: nat ensures !IsAt(s[1..], p, i) {
          if IsAt(s[1..], p, i) { assert s[1..][i..i + |p|] == s[i + 1..i + 1 + |p|]; assert IsAt(s, p, i + 1); }
        }
      }
      CountAbsent(s[1..], p);
    }
  }

  /** `strings.ReplaceAll` for a non-empty pattern: leftmost, non-overlapping. */
  function ReplaceAll(s: string, p: string, rep: string): string
    requires |p| > 0
    decreases |s|
  {
    if |s| < |p| then s
    else if s[..|p|] == p then rep + ReplaceAll(s[|p|..], p, rep)
    else [s[0]] + ReplaceAll(s[1..], p, rep)
  }

  /** Replacing by a shorter text shortens the text by that much per occurrence. */
  lemma {:induction false} ReplaceAllLength(s: string, p: string, rep: string)
    requires |p| > 0
    ensures |ReplaceAll(s, p, rep)| == |s| - Count(s, p) * (|p| - |rep|)
    decreases |s|
  {
    if |s| < |p| {
    } else if s[..|p|] == p {
      var t := s[|p|..];
      ReplaceAllLength(t, p, rep);
      assert ReplaceAll(s, p, rep) == rep + ReplaceAll(t, p, rep);
      assert Count(s, p) == Count(t, p) + 1;
      MulSucc(Count(t, p), |p| - |rep|);
    } else {
      ReplaceAllLength(s[1..], p, rep);
      assert ReplaceAll(s, p, rep) == [s[0]] + ReplaceAll(s[1..], p, rep);
      assert Count(s, p) == Count(s[1..], p);
    }
  }

  lemma MulSucc(c: nat, d: int)
    ensures (c + 1) * d == c * d + d
  {
  }

  /** A text containing `p` has at least one occurrence for `Count` to find. */
  lemma {:induction false} CountPositive(s: string, p: string, i: nat)
    requires |p| > 0 && IsAt(s, p, i)
    ensures Count(s, p) > 0
    decreases |s|
  {
    if s[..|p|] != p {
      assert i > 0;
      assert IsAt(s[1..], p, i - 1) by { assert s[1..][i - 1..i - 1 + |p|] == s[i..i + |p|]; }
      CountPositive(s[1..], p, i - 1);
    }
  }

  /** Replacing a one-character pattern by a text without that character
      leaves none of it. */
  lemma {:induction false} ReplaceAllDrops(s: string, p: string, rep: string)
    requires |p| == 1 && p[0] !in rep
    ensures p[0] !in ReplaceAll(s, p, rep)
    decreases |s|
  {
    if |s| >= |p| {
      if s[..|p|] == p {
        ReplaceAllDrops(s[|p|..], p, rep);
      } else {
        assert s[0] != p[0] by { assert s[..1][0] == s[0]; }
        ReplaceAllDrops(s[1..], p, rep);
      }
    }
  }

  /** `strings.Split(s, string(c))`: the pieces between the occurrences of `c`. */
  function Split(s: string, c: char): (r: seq<string>)
    ensures |r| >= 1
    decreases |s|
  {
    if s == [] then [""]
    else
      var rest := Split(s[1..], c);
      if s[0] == c then [""] + rest else [[s[0]] + rest[0]] + rest[1..]
  }

  /** `strings.Join`. */
  function Join(parts: seq<string>, sep: string): string
    decreases |parts|
  {
    if |parts| == 0 then ""
    else if |parts| == 1 then parts[0]
    else parts[0] + sep + Join(parts[1..], sep)
  }

  /** No piece of a split contains the separator. */
  lemma {:induction false} SplitPiecesFree(s: string, c: char)
    ensures forall k :: 0 <= k < |Split(s, c)| ==> c !in Split(s, c)[k]
    decreases |s|
  {
    if s != [] { SplitPiecesFree(s[1..], c); }
  }

  /** A character absent from the text is absent from every piece of its split. */
  lemma {:induction false} SplitPiecesAvoid(s: string, c: char, d: char)
    requires d !in s
    ensures forall k :: 0 <= k < |Split(s, c)| ==> d !in Split(s, c)[k]
    decreases |s|
  {
    if s != [] {
      assert d !in s[1..];
      SplitPiecesAvoid(s[1..], c, d);
    }
  }

  /** Joining the pieces of a split with the separator gives back the text. */
  lemma {:induction false} JoinSplit(s: string, c: char)
    ensures Join(Split(s, c), [c]) == s
    decreases |s|
  {
    if s != [] {
      var rest := Split(s[1..], c);
      JoinSplit(s[1..], c);
      if s[0] == c {
        assert Split(s, c) == [""] + rest;
        assert ([""] + rest)[1..] == rest;
      } else {
        var r := [[s[0]] + rest[0]] + rest[1..];
        if |rest| == 1 {
        } else {
          assert r[1..] == rest[1..];
          assert Join(rest, [c]) == rest[0] + [c] + Join(rest[1..], [c]);
        }
      }
    }
  }

  /** Splitting joined pieces that do not contain the separator gives back the pieces. */
  lemma {:induction false} SplitJoin(parts: seq<string>, c: char)
    requires |parts| >= 1
    requires forall k :: 0 <= k < |parts| ==> c !in parts[k]
    ensures Split(Join(parts, [c]), c) == parts
    decreases |parts|, |parts[0]|
  {
    if |parts| == 1 {
      SplitFree(parts[0], c);
    } else if parts[0] == [] {
      var j := Join(parts, [c]);
      assert j == [c] + Join(parts[1..], [c]);
      assert j[1..] == Join(parts[1..], [c]);
      SplitJoin(parts[1..], c);
      assert Split(j, c) == [""] + parts[1..];
    } else {
      var tailParts := [parts[0][1..]] + parts[1..];
      var j := Join(parts, [c]);
      assert j == [parts[0][0]] + Join(tailParts, [c]) by {
        assert Join(tailParts, [c]) == parts[0][1..] + [c] + Join(tailParts[1..], [c]);
        assert tailParts[1..] == parts[1..];
        assert parts[0] == [parts[0][0]] + parts[0][1..];
      }
      assert j[1..] == Join(tailParts, [c]);
      assert c !in parts[0][1..];
      SplitJoin(tailParts, c);
      assert j[0] == parts[0][0] && j[0] != c;
      assert Split(j, c) == [[parts[0][0]] + tailParts[0]] + tailParts[1..];
      assert [parts[0][0]] + parts[0][1..] == parts[0];
    }
  }

  /** Splitting at the first separator: the first piece, then the split of the rest. */
  lemma {:induction false} SplitFirst(s: string, c: char, k: nat)
    requires k < |s| && s[k] == c && c !in s[..k]
    ensures Split(s, c) == [s[..k]] + Split(s[k + 1..], c)
    decreases |s|
  {
    if k > 0 {
      assert s[0] != c by { assert s[..k][0] == s[0]; }
      assert s[1..][..k - 1] == s[..k][1..];
      SplitFirst(s[1..], c, k - 1);
      assert s[1..][k..] == s[k + 1..];
      assert [s[0]] + s[1..][..k - 1] == s[..k];
    }
  }

  /** A text without the separator splits into itself. */
  lemma {:induction false} SplitFree(s: string, c: char)
    requires c !in s
    ensures Split(s, c) == [s]
    decreases |s|
  {
    if s != [] {
      SplitFree(s[1..], c);
      assert [s[0]] + s[1..] == s;
    }
  }

  /** ASCII-only `strings.ToLower`. */
  function ToLower(s: string): (r: string)
    ensures |r| == |s|
    ensures forall i :: 0 <= i < |s| ==> r[i] == LowerChar(s[i])
  {
    seq(|s|, i requires 0 <= i < |s| => LowerChar(s[i]))
  }

  function LowerChar(c: char): char {
    if 'A' <= c <= 'Z' then (c as int + 32) as char else c
  }

  /** `strings.Repeat(s, n)`. */
  function Repeat(s: string, n: nat): (r: string)
    ensures |r| == |s| * n
  {
    if n == 0 then "" else s + Repeat(s, n - 1)
  }

  /** A repeated text holds the text over and over: it starts with the text,
      and each later character repeats the one a text's length before it. */
  lemma RepeatContents(s: string, n: nat)
    ensures n > 0 ==> Repeat(s, n)[..|s|] == s
    ensures forall i :: |s| <= i < |Repeat(s, n)| ==> Repeat(s, n)[i] == Repeat(s, n)[i - |s|]
  {
    if n > 0 {
      var r := Repeat(s, n);
      var t := Repeat(s, n - 1);
      assert r == s + t;
      RepeatSnoc(s, n - 1);
      assert r == t + s;
      forall i | |s| <= i < |r|
        ensures r[i] == r[i - |s|]
      {
        assert r[i] == t[i - |s|];
      }
    }
  }

  /** One more copy of the text goes at the end as well as at the front. */
  lemma {:induction false} RepeatSnoc(s: string, n: nat)
    ensures Repeat(s, n + 1) == Repeat(s, n) + s
    decreases n
  {
    if n == 0 {
      assert Repeat(s, 1) == s + "";
      assert Repeat(s, 0) + s == "" + s;
    } else {
      RepeatSnoc(s, n - 1);
      assert Repeat(s, n + 1) == s + (Repeat(s, n - 1) + s);
      AppendAssoc(s, Repeat(s, n - 1), s);
    }
  }

  /** A repeated single character is that character everywhere. */
  lemma {:induction false} RepeatChar(c: char, n: nat)
    ensures forall i :: 0 <= i < n ==> Repeat([c], n)[i] == c
  {
    if n > 0 {
      RepeatChar(c, n - 1);
      assert Repeat([c], n) == [c] + Repeat([c], n - 1);
    }
  }

  /** The decimal spelling of `n`, as `%d` prints it. */
  function NatToString(n: nat): (r: string)
    ensures |r| >= 1
    decreases n
  {
    if n < 10 then [Digit(n)] else NatToString(n / 10) + [Digit(n % 10)]
  }

  /** The spelling has decimal digits only. */
  lemma {:induction false} NatToStringDigits(n: nat)
    ensures forall i :: 0 <= i < |NatToString(n)| ==> '0' <= NatToString(n)[i] <= '9'
    decreases n
  {
    if n >= 10 {
      NatToStringDigits(n / 10);
      var s := NatToString(n);
      forall i | 0 <= i < |s|
        ensures '0' <= s[i] <= '9'
      {
        if i < |s| - 1 {
          assert s[i] == NatToString(n / 10)[i];
        }
      }
    }
  }

  function Digit(d: nat): (c: char)
    requires d < 10
    ensures '0' <= c <= '9'
  {
    "0123456789"[d]
  }

  /** The number of occurrences of `c` in `s`, as `strings.Count(s, string(c))`. */
  function CountChar(s: string, c: char): nat
    decreases |s|
  {
    if s == [] then 0 else (if s[0] == c then 1 else 0) + CountChar(s[1..], c)
  }

  /** The value of a string of decimal digits, most significant first. */
  function DecimalValue(s: string): nat
    requires forall i :: 0 <= i < |s| ==> '0' <= s[i] <= '9'
    decreases |s|
  {
    if s == [] then 0
    else 10 * DecimalValue(s[..|s| - 1]) + ((s[|s| - 1] as int - '0' as int) as nat)
  }

  /** Reading back the decimal spelling of `n` gives `n`. */
  lemma {:induction false} DecimalRoundTrip(n: nat)
    ensures forall i :: 0 <= i < |NatToString(n)| ==> '0' <= NatToString(n)[i] <= '9'
    ensures DecimalValue(NatToString(n)) == n
    decreases n
  {
    NatToStringDigits(n);
    if n >= 10 {
      var s := NatToString(n);
      DecimalRoundTrip(n / 10);
      assert s[..|s| - 1] == NatToString(n / 10);
      assert s[|s| - 1] == Digit(n % 10);
    } else {
      assert NatToString(n) == [Digit(n)];
    }
  }

  /** A one-character pattern is counted once per occurrence of that character. */
  lemma {:induction false} CountSingle(s: string, c: char)
    ensures Count(s, [c]) == CountChar(s, c)
    decreases |s|
  {
    if s != [] {
      CountSingle(s[1..], c);
      assert s[..1] == [s[0]];
    }
  }

  /** A split has one piece more than there are separators. */
  lemma {:induction false} SplitCount(s: string, c: char)
    ensures |Split(s, c)| == CountChar(s, c) + 1
    decreases |s|
  {
    if s != [] {
      SplitCount(s[1..], c);
      var rest := Split(s[1..], c);
      if s[0] == c {
        assert Split(s, c) == [""] + rest;
      } else {
        assert Split(s, c) == [[s[0]] + rest[0]] + rest[1..];
      }
    }
  }

  /** `strings.Contains` with a one-character pattern is membership. */
  lemma ContainsChar(s: string, c: char)
    ensures Contains(s, [c]) <==> c in s
  {
    if c in s {
      var i :| 0 <= i < |s| && s[i] == c;
      assert IsAt(s, [c], i);
    }
    if Contains(s, [c]) {
      var i: nat :| i <= |s| && IsAt(s, [c], i);
      assert s[i] == s[i..i + 1][0];
    }
  }

  /** A list of pieces with `d` appended to its last piece. */
  function ExtendLast(ls: seq<string>, d: char): (r: seq<string>)
    requires |ls| >= 1
    ensures |r| == |ls| && r[..|r| - 1] == ls[..|ls| - 1] && r[|r| - 1] == ls[|ls| - 1] + [d]
  {
    ls[..|ls| - 1] + [ls[|ls| - 1] + [d]]
  }

  /** Appending the separator to a text starts a new empty piece. */
  lemma {:induction false} SplitSnocSep(s: string, c: char)
    ensures Split(s + [c], c) == Split(s, c) + [""]
    decreases |s|
  {
    if s == [] {
      assert [] + [c] == [c];
    } else {
      assert (s + [c])[1..] == s[1..] + [c];
      SplitSnocSep(s[1..], c);
      var rest := Split(s[1..], c);
      if s[0] != c {
        assert Split(s, c) == [[s[0]] + rest[0]] + rest[1..];
        assert (rest + [""])[1..] == rest[1..] + [""];
      }
    }
  }

  /** Appending any other character to a text extends its last piece. */
  lemma {:induction false} SplitSnocChar(s: string, c: char, d: char)
    requires d != c
    ensures Split(s + [d], c) == ExtendLast(Split(s, c), d)
    decreases |s|
  {
    if s == [] {
      assert s + [d] == [d];
      assert [d][1..] == [];
      assert Split([d], c) == [[d] + Split([], c)[0]] + Split([], c)[1..];
      assert Split([], c) == [""];
      assert [d] + "" == [d] && [""][1..] == [];
      assert Split([d], c) == [[d]];
      assert Split(s, c) == [""];
      assert ExtendLast([""], d) == [[d]];
    } else {
      assert (s + [d])[1..] == s[1..] + [d];
      assert (s + [d])[0] == s[0];
      SplitSnocChar(s[1..], c, d);
      var rest := Split(s[1..], c);
      var e := Split(s[1..] + [d], c);
      assert e == ExtendLast(rest, d);
      if s[0] == c {
        assert Split(s + [d], c) == [""] + e;
        assert Split(s, c) == [""] + rest;
        ExtendLastCons("", rest, d);
      } else {
        assert Split(s + [d], c) == [[s[0]] + e[0]] + e[1..];
        assert Split(s, c) == [[s[0]] + rest[0]] + rest[1..];
        ExtendLastFirst(s[0], rest, d);
      }
    }
  }

  lemma ExtendLastCons(x: string, rest: seq<string>, d: char)
    requires |rest| >= 1
    ensures ExtendLast([x] + rest, d) == [x] + ExtendLast(rest, d)
  {
  }

  lemma ExtendLastFirst(ch: char, rest: seq<string>, d: char)
    requires |rest| >= 1
    ensures var e := ExtendLast(rest, d);
            [[ch] + e[0]] + e[1..] == ExtendLast([[ch] + rest[0]] + rest[1..], d)
  {
    var e := ExtendLast(rest, d);
    if |rest| == 1 {
      assert [ch] + (rest[0] + [d]) == ([ch] + rest[0]) + [d];
    } else {
      assert e[0] == rest[0];
      assert e[1..] == ExtendLast(rest[1..], d);
    }
  }

  /** Joining one more piece puts the separator before it, unless it is the first. */
  lemma {:induction false} JoinSnoc(parts: seq<string>, x: string, sep: string)
    ensures Join(parts + [x], sep) == if parts == [] then x else Join(parts, sep) + sep + x
    decreases |parts|
  {
    if parts == [] {
      assert parts + [x] == [x];
    } else if |parts| == 1 {
      assert parts + [x] == [parts[0], x];
      assert [parts[0], x][1..] == [x];
    } else {
      assert (parts + [x])[1..] == parts[1..] + [x];
      JoinSnoc(parts[1..], x, sep);
    }
  }

  lemma {:induction false} CountCharAppend(a: string, b: string, c: char)
    ensures CountChar(a + b, c) == CountChar(a, c) + CountChar(b, c)
    decreases |a|
  {
    if a == [] {
      assert a + b == b;
    } else {
      assert (a + b)[1..] == a[1..] + b;
      CountCharAppend(a[1..], b, c);
    }
  }

  /** Lower-casing never turns a character into white space or back. */
  lemma LowerKeepsSpace(c: char)
    ensures IsSpace(LowerChar(c)) <==> IsSpace(c)
  {
  }

  lemma {:induction false} TrimLeftLower(s: string)
    ensures TrimLeft(ToLower(s)) == ToLower(TrimLeft(s))
    decreases |s|
  {
    if s != [] {
      LowerKeepsSpace(s[0]);
      assert ToLower(s)[1..] == ToLower(s[1..]);
      TrimLeftLower(s[1..]);
    }
  }

  lemma {:induction false} TrimRightLower(s: string)
    ensures TrimRight(ToLower(s)) == ToLower(TrimRight(s))
    decreases |s|
  {
    if s != [] {
      LowerKeepsSpace(s[|s| - 1]);
      assert ToLower(s)[..|s| - 1] == ToLower(s[..|s| - 1]);
      TrimRightLower(s[..|s| - 1]);
    }
  }

  /** Trimming and ASCII lower-casing can be done in either order. */
  lemma TrimSpaceLower(s: string)
    ensures TrimSpace(ToLower(s)) == ToLower(TrimSpace(s))
  {
    TrimLeftLower(s);
    TrimRightLower(TrimLeft(s));
  }
}
