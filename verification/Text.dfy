/** The textual conventions of the request path: the ';' separator, decimal numbers and newline-joined listings. */
module Text {
  import opened Bytes

  const SEP: byte := 59
  const NEWLINE: byte := 10
  const MINUS: byte := 45
  const PLUS: byte := 43
  const ZERO: byte := 48

  // ---------- separator ----------

  /** Index of the first c in s, or -1. */
  function IndexOf(s: seq<byte>, c: byte): (i: int)
    ensures -1 <= i < |s|
    ensures i >= 0 ==> s[i] == c
    ensures forall k :: 0 <= k < (if i < 0 then |s| else i) ==> s[k] != c
  {
    if s == [] then -1
    else if s[0] == c then 0
    else
      var i := IndexOf(s[1..], c);
      if i < 0 then -1 else i + 1
  }

  /** The loop of char_at, which the master's parsers share. The source reads str[0] before it looks at the length. */
  method CharAt(str: seq<byte>, c: byte) returns (r: int)
    requires str != []
    ensures r == IndexOf(str, c)
  {
    var index, size := 0, |str|;
    while str[index] != c
      invariant 0 <= index < size
      invariant forall k :: 0 <= k < index ==> str[k] != c
      decreases size - index
    {
      index := index + 1;
      if index == size {
        return -1;
      }
    }
    return index;
  }

  function BeforeSep(arg: seq<byte>): (s: seq<byte>)
    requires SEP in arg
    ensures SEP !in s
  {
    arg[..IndexOf(arg, SEP)]
  }

  function AfterSep(arg: seq<byte>): (s: seq<byte>)
    requires SEP in arg
  {
    arg[IndexOf(arg, SEP) + 1..]
  }

  /** The print format "%s;%s". */
  function WithSep(name: seq<byte>, data: seq<byte>): (arg: seq<byte>) {
    name + [SEP] + data
  }

  /** Splitting at the first ';' and joining again is the identity on every argument that has one ... */
  lemma RejoinSplit(arg: seq<byte>)
    requires SEP in arg
    ensures WithSep(BeforeSep(arg), AfterSep(arg)) == arg == BeforeSep(arg) + [59] + AfterSep(arg)
    ensures 59 !in BeforeSep(arg)
  {
  }

  /** ... and joining then splitting gives the pair back if and only if the name has no ';', whatever the data. */
  lemma SplitJoinedIff(name: seq<byte>, data: seq<byte>)
    ensures SEP in WithSep(name, data)
    ensures BeforeSep(WithSep(name, data)) == name <==> SEP !in name
    ensures AfterSep(WithSep(name, data)) == data <==> SEP !in name
  {
    var arg := WithSep(name, data);
    var i := IndexOf(arg, SEP);
    assert arg[|name|] == SEP;
    if SEP in name {
      var k :| 0 <= k < |name| && name[k] == SEP;
      assert arg[k] == SEP;
    } else {
      assert i == |name|;
      assert arg[i + 1..] == data;
    }
  }

  // ---------- decimal numbers ----------

  predicate IsDigit(b: byte) {
    ZERO <= b <= ZERO + 9
  }

  predicate IsSpace(b: byte) {
    b == 32 || 9 <= b <= 13
  }

  function Digits(n: nat): (s: seq<byte>)
    ensures s != [] && forall i :: 0 <= i < |s| ==> IsDigit(s[i])
  {
    if n < 10 then [ZERO + n as byte] else Digits(n / 10) + [ZERO + (n % 10) as byte]
  }

  /** printf's %ld. */
  function Show(v: int): (s: seq<byte>) {
    if v < 0 then [MINUS] + Digits(-v) else Digits(v)
  }

  /** The value of the leading digits of s, continuing a number read so far. */
  function ReadDigits(s: seq<byte>, soFar: nat): (n: nat) {
    if s == [] || !IsDigit(s[0]) then soFar else ReadDigits(s[1..], 10 * soFar + (s[0] - ZERO) as int)
  }

  /** atol: leading space, an optional sign, then digits up to the first other byte. */
  function Atol(s: seq<byte>): (v: int) {
    if s == [] then 0
    else if IsSpace(s[0]) then Atol(s[1..])
    else if s[0] == MINUS then 0 - ReadDigits(s[1..], 0)
    else if s[0] == PLUS then ReadDigits(s[1..], 0)
    else ReadDigits(s, 0)
  }

  /** s does not go on with a digit. */
  predicate StopsNumber(s: seq<byte>) {
    s == [] || !IsDigit(s[0])
  }

  lemma {:induction false} ReadDigitsAppend(n: nat, rest: seq<byte>)
    requires StopsNumber(rest)
    ensures ReadDigits(Digits(n) + rest, 0) == n
  {
    ReadDigitsGo(n, rest);
  }

  lemma {:induction false} ReadDigitsGo(n: nat, rest: seq<byte>)
    ensures ReadDigits(Digits(n) + rest, 0) == ReadDigits(rest, n)
  {
    if n < 10 {
      assert (Digits(n) + rest)[1..] == rest;
    } else {
      var d := ZERO + (n % 10) as byte;
      assert Digits(n) + rest == Digits(n / 10) + ([d] + rest);
      ReadDigitsGo(n / 10, [d] + rest);
      assert ([d] + rest)[1..] == rest;
    }
  }

  /** Every printed number is parsed back, whatever follows it that is not a digit. */
  lemma CountRoundTrip(v: int, rest: seq<byte>)
    requires StopsNumber(rest)
    ensures Atol(Show(v) + rest) == v
  {
    if v < 0 {
      assert Show(v) + rest == [MINUS] + (Digits(-v) + rest);
      ReadDigitsAppend(-v, rest);
    } else {
      ReadDigitsAppend(v, rest);
      assert IsDigit(Digits(v)[0]) && (Digits(v) + rest)[0] == Digits(v)[0];
    }
  }

  /** The k-th character from the right is the k-th decimal digit, in ASCII; a minus sign is in front. */
  lemma ShowDigit(v: int, k: nat)
    ensures v >= 0 && k < |Show(v)| ==> Show(v)[|Show(v)| - 1 - k] as int == 48 + v / Pow10(k) % 10
    ensures v < 0 ==> Show(v) == [45] + Show(-v)
  {
    if v >= 0 && k < |Show(v)| {
      DigitAt(v, k);
    }
  }

  lemma {:induction false} DigitAt(n: nat, k: nat)
    requires k < |Digits(n)|
    ensures Digits(n)[|Digits(n)| - 1 - k] as int == 48 + n / Pow10(k) % 10
  {
    if n >= 10 && k > 0 {
      DigitAt(n / 10, k - 1);
      DivideTwice(n, 10, Pow10(k - 1));
    }
  }

  /** White space and a plus sign in front do not matter, and what is no number counts as zero. */
  lemma AtolFront(n: nat, b: byte, s: seq<byte>, rest: seq<byte>)
    requires StopsNumber(rest)
    ensures b == 32 || 9 <= b <= 13 ==> Atol([b] + s) == Atol(s)
    ensures Atol([43] + Show(n) + rest) == n
    ensures Atol([]) == 0
    ensures b > 57 || 13 < b < 32 || b < 9 ==> Atol([b] + s) == 0
  {
    assert ([b] + s)[1..] == s;
    assert ([43] + Show(n) + rest)[1..] == Digits(n) + rest;
    ReadDigitsAppend(n, rest);
  }

  function Pow10(k: nat): (n: nat)
    ensures n >= 1
  {
    if k == 0 then 1 else 10 * Pow10(k - 1)
  }

  /** A number needs at most k > 0 digits exactly when it is below 10^k. */
  lemma {:induction false} DigitCount(n: nat, k: nat)
    requires k > 0
    ensures |Digits(n)| <= k <==> n < Pow10(k)
  {
    if n >= 10 {
      if k == 1 {
        assert Pow10(1) == 10;
      } else {
        DigitCount(n / 10, k - 1);
      }
    } else {
      assert Pow10(k) == 10 * Pow10(k - 1) >= 10;
    }
  }

  lemma ShowIsText(v: int)
    ensures NoNul(Show(v)) && SEP !in Show(v) && Show(v) != []
  {
  }

  lemma ShowMinusOne()
    ensures Show(-1) == [45, 49] && CStr([45, 49]) == [45, 49]
  {
    assert Digits(1) == [49];
  }

  lemma CountIsShort(n: nat)
    requires n < INT_SPAN
    ensures |Show(n)| <= 10 && NoNul(Show(n))
  {
    assert Pow10(10) == 10000000000 by {
      assert Pow10(3) == 1000 && Pow10(6) == 1000000;
    }
    DigitCount(n, 10);
    ShowIsText(n);
  }

  // ---------- listings ----------

  /** The names with newlines between them. */
  function Join(names: seq<seq<byte>>): (s: seq<byte>) {
    if names == [] then []
    else if |names| == 1 then names[0]
    else names[0] + [NEWLINE] + Join(names[1..])
  }

  predicate OccursAt(hay: seq<byte>, needle: seq<byte>, i: nat) {
    i + |needle| <= |hay| && hay[i..i + |needle|] == needle
  }

  /** strstr(hay, needle) != NULL. */
  predicate Contains(hay: seq<byte>, needle: seq<byte>) {
    exists i :: 0 <= i <= |hay| && OccursAt(hay, needle, i)
  }

  lemma ContainsAcrossNewline(a: seq<byte>, b: seq<byte>, needle: seq<byte>)
    requires needle != [] && NEWLINE !in needle
    ensures Contains(a + [NEWLINE] + b, needle) <==> Contains(a, needle) || Contains(b, needle)
  {
    var s := a + [NEWLINE] + b;
    var n := |needle|;
    if i :| 0 <= i <= |a| && OccursAt(a, needle, i) {
      assert s[i..i + n] == a[i..i + n];
      assert OccursAt(s, needle, i);
    }
    if i :| 0 <= i <= |b| && OccursAt(b, needle, i) {
      assert s[|a| + 1 + i..|a| + 1 + i + n] == b[i..i + n];
      assert OccursAt(s, needle, |a| + 1 + i);
    }
    if i :| 0 <= i <= |s| && OccursAt(s, needle, i) {
      OccursOnOneSide(a, b, needle, i);
    }
  }

  lemma BytesOfOccurrence(s: seq<byte>, needle: seq<byte>, i: nat)
    requires OccursAt(s, needle, i)
    ensures forall k :: i <= k < i + |needle| ==> s[k] in needle
  {
    assert forall k | i <= k < i + |needle| :: s[k] == s[i..i + |needle|][k - i];
  }

  lemma OccursOnOneSide(a: seq<byte>, b: seq<byte>, needle: seq<byte>, i: nat)
    requires needle != [] && NEWLINE !in needle && OccursAt(a + [NEWLINE] + b, needle, i)
    ensures OccursAt(a, needle, i) || (i > |a| && OccursAt(b, needle, i - |a| - 1))
  {
    var s := a + [NEWLINE] + b;
    var n := |needle|;
    BytesOfOccurrence(s, needle, i);
    assert s[|a|] == NEWLINE;
    if i + n <= |a| {
      assert s[i..i + n] == a[i..i + n];
    } else {
      var j := i - |a| - 1;
      assert s[i..i + n] == b[j..j + n];
    }
  }

  /** A match in a joined listing lies inside a single entry. */
  lemma {:induction false} MatchIsInOneEntry(names: seq<seq<byte>>, needle: seq<byte>)
    requires needle != [] && NEWLINE !in needle
    ensures Contains(Join(names), needle) <==> exists i :: 0 <= i < |names| && Contains(names[i], needle)
  {
    if |names| > 1 {
      MatchIsInOneEntry(names[1..], needle);
      ContainsAcrossNewline(names[0], Join(names[1..]), needle);
      if i :| 0 <= i < |names[1..]| && Contains(names[1..][i], needle) {
        assert Contains(names[i + 1], needle);
      }
      if i :| 0 <= i < |names| && Contains(names[i], needle) && !Contains(names[0], needle) {
        assert Contains(names[1..][i - 1], needle);
      }
    }
  }

  lemma JoinBehind(names: seq<seq<byte>>, i: nat)
    requires i < |names|
    ensures Join(names[i..])
         == if i == |names| - 1 then names[i] else names[i] + [10] + Join(names[i + 1..])
  {
    assert names[i..][1..] == names[i + 1..];
  }

  /** file_list_to_str. */
  method FileListToStr(names: seq<seq<byte>>) returns (files: seq<byte>)
    ensures files == Join(names)
  {
    if |names| == 0 {
      return [];
    }
    files := [];
    var i := 0;
    while i < |names|
      invariant 0 <= i <= |names|
      invariant i < |names| ==> files + Join(names[i..]) == Join(names)
      invariant i == |names| ==> files == Join(names)
    {
      JoinBehind(names, i);
      files := files + names[i];
      if i != |names| - 1 {
        files := files + [NEWLINE];
      }
      i := i + 1;
    }
  }
}
