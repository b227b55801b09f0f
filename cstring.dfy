/** The C library string routines that the request parser, the router and the
    response builder call, stated over a byte buffer `s` and a start offset `i`
    (a `char*` into that buffer). A C string ends at its first NUL; where the
    buffer ends before any NUL, the string is taken to end with the buffer (the
    C code would read on into neighbouring memory). */
module CString {
  import opened Common

  const NUL: char := '\0'

  /** The separator set " \t" that strpbrk and strspn are given. */
  predicate IsBlank(c: char) { c == ' ' || c == '\t' }

  /** isspace in the C locale, which atol skips. */
  predicate IsSpace(c: char)
  {
    c == ' ' || c == '\t' || c == '\n' || c == '\r' || c == 11 as char || c == 12 as char
  }

  predicate IsDigit(c: char) { '0' <= c <= '9' }

  /** Offset of the NUL that ends the string at `i` (its strlen is StrEnd - i). */
  function StrEnd(s: seq<char>, i: nat): (e: nat)
    requires i <= |s|
    ensures i <= e <= |s|
    ensures forall k :: i <= k < e ==> s[k] != NUL
    ensures e < |s| ==> s[e] == NUL
    decreases |s| - i
  {
    if i == |s| || s[i] == NUL then i else StrEnd(s, i + 1)
  }

  /** The characters of the C string at `i`. */
  function CStr(s: seq<char>, i: nat): (r: string)
    requires i <= |s|
    ensures NUL !in r
    ensures |r| == StrEnd(s, i) - i && r == s[i..StrEnd(s, i)]
  {
    s[i..StrEnd(s, i)]
  }

  /** Character at `k`, or NUL past the end of the buffer. */
  function At(s: seq<char>, k: int): char
  {
    if 0 <= k < |s| then s[k] else NUL
  }

  /** strpbrk(s + i, " \t"): the first blank of the string at `i`. */
  function FindBlank(s: seq<char>, i: nat): (r: Option<nat>)
    requires i <= |s|
    ensures r.Some? ==> i <= r.value < StrEnd(s, i) && IsBlank(s[r.value])
    ensures r.Some? ==> forall k :: i <= k < r.value ==> !IsBlank(s[k])
    ensures r.None? ==> forall k :: i <= k < StrEnd(s, i) ==> !IsBlank(s[k])
    decreases |s| - i
  {
    if i == |s| || s[i] == NUL then None
    else if IsBlank(s[i]) then Some(i)
    else FindBlank(s, i + 1)
  }

  /** `i + strspn(s + i, " \t")`: the offset of the first non-blank. */
  function SkipBlanks(s: seq<char>, i: nat): (j: nat)
    requires i <= |s|
    ensures i <= j <= |s|
    ensures forall k :: i <= k < j ==> IsBlank(s[k])
    ensures j < |s| ==> !IsBlank(s[j])
    decreases |s| - i
  {
    if i < |s| && IsBlank(s[i]) then SkipBlanks(s, i + 1) else i
  }

  /** strchr(s + i, c) for a non-NUL `c`: its first occurrence in the string. */
  function FindChar(s: seq<char>, i: nat, c: char): (r: Option<nat>)
    requires i <= |s| && c != NUL
    ensures r.Some? ==> i <= r.value < StrEnd(s, i) && s[r.value] == c
    ensures r.Some? ==> forall k :: i <= k < r.value ==> s[k] != c
    ensures r.None? ==> forall k :: i <= k < StrEnd(s, i) ==> s[k] != c
    decreases |s| - i
  {
    if i == |s| || s[i] == NUL then None
    else if s[i] == c then Some(i)
    else FindChar(s, i + 1, c)
  }

  /** strrchr(s + i, c) for a non-NUL `c`: its last occurrence in the string. */
  function FindLast(s: seq<char>, i: nat, c: char): (r: Option<nat>)
    requires i <= |s| && c != NUL
    ensures r.Some? ==> i <= r.value < StrEnd(s, i) && s[r.value] == c
    ensures r.Some? ==> forall k :: r.value < k < StrEnd(s, i) ==> s[k] != c
    ensures r.None? ==> forall k :: i <= k < StrEnd(s, i) ==> s[k] != c
    decreases |s| - i
  {
    if i == |s| || s[i] == NUL then None
    else match FindLast(s, i + 1, c)
      case Some(k) => Some(k)
      case None => if s[i] == c then Some(i) else None
  }

  /** tolower in the C locale. */
  function Lower(c: char): (d: char)
    ensures 'A' <= c <= 'Z' ==> d as int == c as int + 32
    ensures !('A' <= c <= 'Z') ==> d == c
  {
    if 'A' <= c <= 'Z' then (c as int + 32) as char else c
  }

  function LowerAll(t: string): (r: string)
    ensures |r| == |t| && forall k :: 0 <= k < |t| ==> r[k] == Lower(t[k])
  {
    seq(|t|, k requires 0 <= k < |t| => Lower(t[k]))
  }

  /** strcasecmp(s + i, lit) == 0. */
  predicate CaseEq(s: seq<char>, i: nat, lit: string)
    requires i <= |s|
  {
    LowerAll(CStr(s, i)) == LowerAll(lit)
  }

  /** strncasecmp(s + i, lit, |lit|) == 0 for a literal without NUL: the
      string at `i` is at least as long as `lit` and starts with it, ignoring case. */
  predicate CasePrefix(s: seq<char>, i: nat, lit: string)
    requires i <= |s|
  {
    StrEnd(s, i) - i >= |lit| && LowerAll(s[i..i + |lit|]) == LowerAll(lit)
  }

  /** Offset of the first character at or after `i` that is not isspace. */
  function SkipSpaces(s: seq<char>, i: nat): (j: nat)
    requires i <= |s|
    ensures i <= j <= |s|
    ensures forall k :: i <= k < j ==> IsSpace(s[k])
    ensures j < |s| ==> !IsSpace(s[j])
    decreases |s| - i
  {
    if i < |s| && IsSpace(s[i]) then SkipSpaces(s, i + 1) else i
  }

  /** Offset just past the run of decimal digits at `i`. */
  function DigitsEnd(s: seq<char>, i: nat): (j: nat)
    requires i <= |s|
    ensures i <= j <= |s|
    ensures forall k :: i <= k < j ==> IsDigit(s[k])
    ensures j < |s| ==> !IsDigit(s[j])
    decreases |s| - i
  {
    if i < |s| && IsDigit(s[i]) then DigitsEnd(s, i + 1) else i
  }

  /** The number a string of decimal digits denotes. */
  function DigitsValue(d: string): nat
    requires forall k :: 0 <= k < |d| ==> IsDigit(d[k])
  {
    if d == [] then 0
    else
      assert IsDigit(d[|d| - 1]);
      DigitsValue(d[..|d| - 1]) * 10 + (d[|d| - 1] as int - '0' as int)
  }

  /** atol(s + i) as glibc computes it (strtol with base 10): leading isspace
      skipped, an optional sign, the longest run of digits; a value outside
      the range of `long` saturates to LONG_MIN or LONG_MAX. */
  function Atol(s: seq<char>, i: nat): (v: int)
    requires i <= |s|
    ensures LONG_MIN <= v <= LONG_MAX
  {
    var j := SkipSpaces(s, i);
    var neg := j < |s| && s[j] == '-';
    var d := if j < |s| && (s[j] == '-' || s[j] == '+') then j + 1 else j;
    var mag: int := DigitsValue(s[d..DigitsEnd(s, d)]);
    if neg then (if -mag < LONG_MIN then LONG_MIN else -mag)
    else (if mag > LONG_MAX then LONG_MAX else mag)
  }

  function DigitChar(d: nat): (c: char)
    requires d < 10
    ensures IsDigit(c) && c as int - '0' as int == d
  {
    ('0' as int + d) as char
  }

  /** The decimal rendering of a natural number, most significant digit first. */
  function NatDecimal(n: nat): (r: string)
    ensures |r| >= 1 && forall k :: 0 <= k < |r| ==> IsDigit(r[k])
    ensures n < 10 ==> |r| == 1
    decreases n
  {
    if n < 10 then [DigitChar(n)] else NatDecimal(n / 10) + [DigitChar(n % 10)]
  }

  /** What printf's %d produces for an `int`. */
  function Decimal(n: int): (r: string)
    ensures |r| >= 1 && NUL !in r
    ensures n >= 0 ==> r == NatDecimal(n)
    ensures n < 0 ==> r == "-" + NatDecimal(-n)
  {
    if n < 0 then "-" + NatDecimal(-n) else NatDecimal(n)
  }

  /** Reading back what %d wrote: the digits of NatDecimal(n) denote n. */
  lemma {:induction false} DigitsValueOfDecimal(n: nat)
    ensures DigitsValue(NatDecimal(n)) == n
    decreases n
  {
    if n >= 10 {
      var d := NatDecimal(n);
      DigitsValueOfDecimal(n / 10);
      assert d[..|d| - 1] == NatDecimal(n / 10);
    }
  }

  /** The Content-Length the response builder renders with %d is read back
      exactly by the atol that parse_headers applies to a Content-length header. */
  lemma AtolReadsDecimal(s: seq<char>, i: nat, n: nat)
    requires n <= LONG_MAX
    requires i + |NatDecimal(n)| <= |s| && s[i..i + |NatDecimal(n)|] == NatDecimal(n)
    requires i + |NatDecimal(n)| < |s| ==> !IsDigit(s[i + |NatDecimal(n)|])
    ensures Atol(s, i) == n
  {
    var r := NatDecimal(n);
    assert s[i] == r[0];
    assert SkipSpaces(s, i) == i;
    DigitsEndOfRun(s, i, |r|);
    assert s[i..DigitsEnd(s, i)] == r;
    DigitsValueOfDecimal(n);
  }

  lemma {:induction false} DigitsEndOfRun(s: seq<char>, i: nat, len: nat)
    requires i + len <= |s|
    requires forall k :: i <= k < i + len ==> IsDigit(s[k])
    requires i + len < |s| ==> !IsDigit(s[i + len])
    ensures DigitsEnd(s, i) == i + len
    decreases len
  {
    if len > 0 {
      DigitsEndOfRun(s, i + 1, len - 1);
    }
  }

  function Pow10(k: nat): (r: nat)
    ensures r >= 1
  {
    if k == 0 then 1 else 10 * Pow10(k - 1)
  }

  /** A number below 10^k takes at most k digits. */
  lemma {:induction false} NatDecimalWidth(n: nat, k: nat)
    requires 1 <= k && n < Pow10(k)
    ensures |NatDecimal(n)| <= k
    decreases k
  {
    if n >= 10 {
      assert k >= 2;
      NatDecimalWidth(n / 10, k - 1);
    }
  }

  /** An int printed with %d takes at most eleven characters. */
  lemma DecimalOfInt32Width(n: int)
    requires INT32_MIN <= n <= INT32_MAX
    ensures |Decimal(n)| <= 11
  {
    assert Pow10(10) == 10000000000;
    if n < 0 {
      NatDecimalWidth(-n, 10);
    } else {
      NatDecimalWidth(n, 10);
    }
  }

  /** `n` NUL characters. */
  function Nuls(n: nat): (r: string)
    ensures |r| == n && forall k :: 0 <= k < n ==> r[k] == NUL
  {
    seq(n, k => NUL)
  }

  /** The buffer `b` after the bytes `t` are stored from offset `at` on;
      bytes that would fall outside the buffer are not stored. */
  function Overwrite(b: seq<char>, at: int, t: seq<char>): (r: seq<char>)
    ensures |r| == |b|
    ensures forall k :: 0 <= k < |b| ==> r[k] == (if at <= k < at + |t| then t[k - at] else b[k])
  {
    seq(|b|, k requires 0 <= k < |b| => if at <= k < at + |t| then t[k - at] else b[k])
  }

  /** What strcpy(dst + at, src) stores: the string and its NUL. */
  function StrCpyBytes(src: string): (r: seq<char>)
    ensures |r| == |src| + 1 && r[..|src|] == src && r[|src|] == NUL
  {
    src + [NUL]
  }

  /** What strncpy(dst + at, src, n) stores for a string `src`: its first `n`
      characters, padded with NULs to exactly `n` when it is shorter. */
  function StrNCpyBytes(src: string, n: nat): (r: seq<char>)
    ensures |r| == n
    ensures forall k :: 0 <= k < n ==> r[k] == (if k < |src| then src[k] else NUL)
  {
    if |src| >= n then src[..n] else src + Nuls(n - |src|)
  }

  /** What vsnprintf(dst, size, ...) stores for the formatted text `t`: at
      most size - 1 characters of it and a NUL, nothing when size is 0. */
  function SnprintfBytes(t: string, size: int): (r: seq<char>)
    ensures size <= 0 ==> r == []
    ensures 0 < size && |t| < size ==> r == t + [NUL]
    ensures 0 < size && |t| >= size ==> r == t[..size - 1] + [NUL]
  {
    if size <= 0 then []
    else if |t| < size then t + [NUL]
    else t[..size - 1] + [NUL]
  }

  /** Storing a string with its NUL over a buffer makes it the C string there. */
  lemma CStrOfStored(b: seq<char>, at: nat, t: string)
    requires NUL !in t && at + |t| < |b|
    ensures CStr(Overwrite(b, at, t + [NUL]), at) == t
  {
    var r := Overwrite(b, at, t + [NUL]);
    assert r[at + |t|] == NUL;
    assert forall k :: at <= k < at + |t| ==> r[k] == t[k - at] && r[k] != NUL;
    StrEndAt(r, at, at + |t|);
  }

  /** The end of the string at `i` is the first NUL at or after `i`. */
  lemma {:induction false} StrEndAt(s: seq<char>, i: nat, e: nat)
    requires i <= e < |s| && s[e] == NUL
    requires forall k :: i <= k < e ==> s[k] != NUL
    ensures StrEnd(s, i) == e
    decreases e - i
  {
    if i < e {
      StrEndAt(s, i + 1, e);
    }
  }

  /** The string at `i` that a NUL at `e` ends. */
  lemma CStrUpTo(s: seq<char>, i: nat, e: nat)
    requires i <= e < |s| && s[e] == NUL
    requires forall k :: i <= k < e ==> s[k] != NUL
    ensures StrEnd(s, i) == e && CStr(s, i) == s[i..e]
  {
    StrEndAt(s, i, e);
  }

  /** strpbrk finds a blank that only non-blank, non-NUL characters precede. */
  lemma {:induction false} FindBlankAt(s: seq<char>, i: nat, j: nat)
    requires i <= j < |s| && IsBlank(s[j])
    requires forall k :: i <= k < j ==> s[k] != NUL && !IsBlank(s[k])
    ensures FindBlank(s, i) == Some(j)
    decreases j - i
  {
    if i < j {
      FindBlankAt(s, i + 1, j);
    }
  }

  /** strncasecmp against a literal fails when the first characters differ
      ignoring case. */
  lemma CasePrefixFirstDiffers(s: seq<char>, i: nat, lit: string)
    requires i < |s| && |lit| > 0 && Lower(s[i]) != Lower(lit[0])
    ensures !CasePrefix(s, i, lit)
  {
  }

  /** strcasecmp and strncasecmp succeed on a string stored with the same
      characters as the literal. */
  lemma CaseEqOfStored(s: seq<char>, i: nat, e: nat, lit: string)
    requires i <= e < |s| && s[e] == NUL && s[i..e] == lit && NUL !in lit
    ensures CaseEq(s, i, lit)
  {
    assert forall k :: i <= k < e ==> s[k] == lit[k - i];
    CStrUpTo(s, i, e);
  }

  /** strncasecmp against a literal fails when some character differs
      ignoring case. */
  lemma CasePrefixDiffersAt(s: seq<char>, i: nat, lit: string, j: nat)
    requires i <= |s| && j < |lit| && i + j < |s| && Lower(s[i + j]) != Lower(lit[j])
    ensures !CasePrefix(s, i, lit)
  {
    if StrEnd(s, i) - i >= |lit| {
      assert LowerAll(s[i..i + |lit|])[j] == Lower(s[i + j]);
    }
  }

  /** strncasecmp succeeds on stored text that equals the literal ignoring case. */
  lemma CasePrefixOfStored(s: seq<char>, i: nat, t: string, lit: string)
    requires i + |t| <= |s| && s[i..i + |t|] == t && |t| == |lit| && NUL !in t
    requires LowerAll(t) == LowerAll(lit)
    ensures CasePrefix(s, i, lit)
  {
    assert forall k :: i <= k < i + |t| ==> s[k] == t[k - i] && s[k] != NUL;
    StrEndPast(s, i, i + |t|);
  }

  /** A C string runs at least as far as its first NUL-free stretch. */
  lemma {:induction false} StrEndPast(s: seq<char>, i: nat, j: nat)
    requires i <= j <= |s|
    requires forall k :: i <= k < j ==> s[k] != NUL
    ensures StrEnd(s, i) >= j
    decreases j - i
  {
    if i < j {
      StrEndPast(s, i + 1, j);
    }
  }

  /** Two buffers that hold the same bytes from `i` up to a NUL at `e`. */
  predicate SameThrough(s: seq<char>, t: seq<char>, i: nat, e: nat)
  {
    |s| == |t| && i <= e < |s| && s[e] == NUL && forall k :: i <= k <= e ==> s[k] == t[k]
  }

  /** The routines below read a string no further than the NUL that ends
      it: on two buffers that agree up to that NUL they give the same answer. */
  lemma {:induction false} StrEndLocal(s: seq<char>, t: seq<char>, i: nat, e: nat)
    requires SameThrough(s, t, i, e)
    ensures StrEnd(s, i) <= e && StrEnd(t, i) == StrEnd(s, i) && CStr(t, i) == CStr(s, i)
    decreases e - i
  {
    if s[i] != NUL {
      StrEndLocal(s, t, i + 1, e);
    }
  }

  lemma CaseEqLocal(s: seq<char>, t: seq<char>, i: nat, e: nat, lit: string)
    requires SameThrough(s, t, i, e)
    ensures CaseEq(t, i, lit) == CaseEq(s, i, lit)
  {
    StrEndLocal(s, t, i, e);
  }

  lemma CasePrefixLocal(s: seq<char>, t: seq<char>, i: nat, e: nat, lit: string)
    requires SameThrough(s, t, i, e)
    ensures CasePrefix(t, i, lit) == CasePrefix(s, i, lit)
    ensures CasePrefix(s, i, lit) ==> i + |lit| <= StrEnd(s, i) <= e
  {
    StrEndLocal(s, t, i, e);
    if StrEnd(s, i) - i >= |lit| {
      assert t[i..i + |lit|] == s[i..i + |lit|];
    }
  }

  lemma {:induction false} FindBlankLocal(s: seq<char>, t: seq<char>, i: nat, e: nat)
    requires SameThrough(s, t, i, e)
    ensures FindBlank(t, i) == FindBlank(s, i)
    decreases e - i
  {
    if s[i] != NUL && !IsBlank(s[i]) {
      FindBlankLocal(s, t, i + 1, e);
    }
  }

  lemma {:induction false} FindCharLocal(s: seq<char>, t: seq<char>, i: nat, e: nat, c: char)
    requires SameThrough(s, t, i, e) && c != NUL
    ensures FindChar(t, i, c) == FindChar(s, i, c)
    decreases e - i
  {
    if s[i] != NUL && s[i] != c {
      FindCharLocal(s, t, i + 1, e, c);
    }
  }

  lemma {:induction false} SkipBlanksLocal(s: seq<char>, t: seq<char>, i: nat, e: nat)
    requires SameThrough(s, t, i, e)
    ensures SkipBlanks(t, i) == SkipBlanks(s, i) <= e
    decreases e - i
  {
    if IsBlank(s[i]) {
      SkipBlanksLocal(s, t, i + 1, e);
    }
  }

  lemma {:induction false} SkipSpacesLocal(s: seq<char>, t: seq<char>, i: nat, e: nat)
    requires SameThrough(s, t, i, e)
    ensures SkipSpaces(t, i) == SkipSpaces(s, i) <= e
    decreases e - i
  {
    if IsSpace(s[i]) {
      SkipSpacesLocal(s, t, i + 1, e);
    }
  }

  lemma {:induction false} DigitsEndLocal(s: seq<char>, t: seq<char>, i: nat, e: nat)
    requires SameThrough(s, t, i, e)
    ensures DigitsEnd(t, i) == DigitsEnd(s, i) <= e
    decreases e - i
  {
    if IsDigit(s[i]) {
      DigitsEndLocal(s, t, i + 1, e);
    }
  }

  lemma AtolLocal(s: seq<char>, t: seq<char>, i: nat, e: nat)
    requires SameThrough(s, t, i, e)
    ensures Atol(t, i) == Atol(s, i)
  {
    SkipSpacesLocal(s, t, i, e);
    var j := SkipSpaces(s, i);
    assert t[j] == s[j];
    var d := if s[j] == '-' || s[j] == '+' then j + 1 else j;
    assert SameThrough(s, t, d, e);
    DigitsEndLocal(s, t, d, e);
    var x := DigitsEnd(s, d);
    assert t[d..x] == s[d..x];
    AtolParts(s, i, j, d, x);
    AtolParts(t, i, j, d, x);
  }

  /** atol split into its steps: the sign at `j` and the digits from `d` to `x`. */
  lemma AtolParts(s: seq<char>, i: nat, j: nat, d: nat, x: nat)
    requires i <= |s| && j == SkipSpaces(s, i) && j < |s|
    requires d == (if s[j] == '-' || s[j] == '+' then j + 1 else j) && x == DigitsEnd(s, d)
    ensures d <= x <= |s| && forall k :: d <= k < x ==> IsDigit(s[k])
    ensures var mag: int := DigitsValue(s[d..x]);
            Atol(s, i) == if s[j] == '-' then (if -mag < LONG_MIN then LONG_MIN else -mag)
                          else (if mag > LONG_MAX then LONG_MAX else mag)
  {
  }

  /** A string read from a later start within it ends at the same NUL. */
  lemma StrEndFrom(s: seq<char>, i: nat, j: nat)
    requires i <= |s| && i <= j <= StrEnd(s, i) < |s|
    ensures StrEnd(s, j) == StrEnd(s, i)
  {
    StrEndAt(s, j, StrEnd(s, i));
  }
}
