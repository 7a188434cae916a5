/** String helpers shared by the scripts: suffix tests, ASCII lower-casing,
    zero-padded decimal numbers (Python's `{n:04d}`), the lexicographic order
    Python uses to compare `str`, `os.path.splitext`, `os.path.basename`,
    `os.path.join` and `str.split(sep)[0]`. */
module Text {

  predicate StartsWith(s: string, prefix: string)
  {
    |prefix| <= |s| && s[..|prefix|] == prefix
  }

  predicate EndsWith(s: string, suffix: string)
  {
    |suffix| <= |s| && s[|s| - |suffix|..] == suffix
  }

  lemma EndsWithAppend(a: string, b: string)
    ensures EndsWith(a + b, b)
  {
    assert (a + b)[|a + b| - |b|..] == b;
  }

  /** Names that the pattern `*` of `glob` matches: `glob` skips names that
      start with a dot. */
  predicate Visible(name: string)
  {
    |name| > 0 && name[0] != '.'
  }

  // ---------------------------------------------------------------------
  // Lower-casing (`str.lower`, `str.casefold`) restricted to ASCII letters

  function LowerChar(c: char): char
  {
    if 'A' <= c <= 'Z' then (c as int + 32) as char else c
  }

  function Lower(s: string): (r: string)
    ensures |r| == |s|
    ensures forall i :: 0 <= i < |s| ==> r[i] == LowerChar(s[i])
  {
    seq(|s|, i requires 0 <= i < |s| => LowerChar(s[i]))
  }

  /** A lower-cased string has no upper-case letter left, so lower-casing
      it again changes nothing; characters other than letters are kept. */
  lemma LowerIsLower(s: string)
    ensures forall i :: 0 <= i < |s| ==> !('A' <= Lower(s)[i] <= 'Z')
    ensures forall i :: 0 <= i < |s| && !('A' <= s[i] <= 'Z') ==> Lower(s)[i] == s[i]
    ensures Lower(Lower(s)) == Lower(s)
  {
  }

  // ---------------------------------------------------------------------
  // Decimal numbers and the `{n:04d}` format

  predicate IsDigit(c: char)
  {
    '0' <= c <= '9'
  }

  predicate AllDigits(s: string)
  {
    forall i :: 0 <= i < |s| ==> IsDigit(s[i])
  }

  /** What `datetime.now().strftime("%Y%m%d_%H%M%S")` produces: eight digits,
      an underscore and six digits. */
  predicate IsTimestamp(s: string)
  {
    |s| == 15 && s[8] == '_' && AllDigits(s[..8]) && AllDigits(s[9..])
  }

  function DigitChar(d: nat): (c: char)
    requires d < 10
    ensures IsDigit(c)
  {
    ('0' as int + d) as char
  }

  function DigitValue(c: char): (d: nat)
    requires IsDigit(c)
    ensures d < 10
  {
    c as int - '0' as int
  }

  function Pow10(k: nat): (p: nat)
    ensures p >= 1
  {
    if k == 0 then 1 else 10 * Pow10(k - 1)
  }

  /** The shortest decimal representation of `n`, as `str(n)` gives it. */
  function Decimal(n: nat): (r: string)
    ensures 1 <= |r|
    ensures AllDigits(r)
    decreases n
  {
    if n < 10 then [DigitChar(n)] else Decimal(n / 10) + [DigitChar(n % 10)]
  }

  /** The number a string of digits denotes; leading zeros do not count. */
  function ValueOf(s: string): nat
    requires AllDigits(s)
  {
    if s == [] then 0 else 10 * ValueOf(s[..|s| - 1]) + DigitValue(s[|s| - 1])
  }

  function Zeros(k: nat): (r: string)
    ensures |r| == k
    ensures forall i :: 0 <= i < k ==> r[i] == '0'
  {
    seq(k, _ => '0')
  }

  /** Python's `f"{n:0{width}d}"` for a non-negative `n`: the decimal digits
      of `n`, padded on the left with zeros up to `width` characters and
      never truncated. */
  function ZeroPad(n: nat, width: nat): (r: string)
    ensures AllDigits(r)
    ensures width <= |r|
    ensures EndsWith(r, Decimal(n))
  {
    var d := Decimal(n);
    if |d| >= width then (assert d[|d| - |d|..] == d; d)
    else (EndsWithAppend(Zeros(width - |d|), d); Zeros(width - |d|) + d)
  }

  lemma {:induction false} DecimalRoundTrip(n: nat)
    ensures ValueOf(Decimal(n)) == n
    decreases n
  {
    if n >= 10 {
      var d := Decimal(n);
      assert d[..|d| - 1] == Decimal(n / 10);
      DecimalRoundTrip(n / 10);
    }
  }

  lemma {:induction false} LeadingZeros(k: nat, s: string)
    requires AllDigits(s)
    ensures AllDigits(Zeros(k) + s)
    ensures ValueOf(Zeros(k) + s) == ValueOf(s)
    decreases |s|, k
  {
    var z := Zeros(k) + s;
    if s == [] {
      assert z == Zeros(k);
      if k > 0 {
        assert z[..|z| - 1] == Zeros(k - 1) + [];
        LeadingZeros(k - 1, []);
      }
    } else {
      assert z[..|z| - 1] == Zeros(k) + s[..|s| - 1];
      LeadingZeros(k, s[..|s| - 1]);
    }
  }

  /** Reading back a zero-padded number gives the number. */
  lemma ZeroPadRoundTrip(n: nat, width: nat)
    ensures ValueOf(ZeroPad(n, width)) == n
  {
    var d := Decimal(n);
    DecimalRoundTrip(n);
    if |d| < width {
      assert ZeroPad(n, width) == Zeros(width - |d|) + d;
      LeadingZeros(width - |d|, d);
    } else {
      assert ZeroPad(n, width) == d;
    }
  }

  /** Distinct numbers get distinct padded texts. */
  lemma ZeroPadInjective(a: nat, b: nat, width: nat)
    requires ZeroPad(a, width) == ZeroPad(b, width)
    ensures a == b
  {
    ZeroPadRoundTrip(a, width);
    ZeroPadRoundTrip(b, width);
  }

  lemma {:induction false} DecimalLength(n: nat)
    ensures n < Pow10(|Decimal(n)|)
    ensures |Decimal(n)| > 1 ==> Pow10(|Decimal(n)| - 1) <= n
    decreases n
  {
    if n >= 10 {
      DecimalLength(n / 10);
    }
  }

  lemma {:induction false} Pow10Monotone(i: nat, j: nat)
    requires i <= j
    ensures Pow10(i) <= Pow10(j)
    decreases j
  {
    if i < j {
      Pow10Monotone(i, j - 1);
    }
  }

  /** A number below 10^width is padded to exactly `width` digits. */
  lemma ZeroPadExactWidth(n: nat, width: nat)
    requires 1 <= width && n < Pow10(width)
    ensures |ZeroPad(n, width)| == width
  {
    var d := Decimal(n);
    DecimalLength(n);
    if |d| > width {
      Pow10Monotone(width, |d| - 1);
      assert false;
    } else if |d| < width {
      assert ZeroPad(n, width) == Zeros(width - |d|) + d;
    }
  }

  // ---------------------------------------------------------------------
  // Lexicographic order of strings, as Python compares `str` values

  predicate LexLe(a: string, b: string)
    decreases |a|
  {
    |a| == 0 || (|b| > 0 && (a[0] < b[0] || (a[0] == b[0] && LexLe(a[1..], b[1..]))))
  }

  lemma {:induction false} LexLeTotal(a: string, b: string)
    ensures LexLe(a, b) || LexLe(b, a)
    decreases |a|
  {
    if |a| > 0 && |b| > 0 && a[0] == b[0] {
      LexLeTotal(a[1..], b[1..]);
    }
  }

  lemma {:induction false} LexLeTransitive(a: string, b: string, c: string)
    requires LexLe(a, b) && LexLe(b, c)
    ensures LexLe(a, c)
    decreases |a|
  {
    if |a| > 0 && a[0] == b[0] && b[0] == c[0] {
      LexLeTransitive(a[1..], b[1..], c[1..]);
    }
  }

  /** Strings that share a prefix compare as their remainders do. */
  lemma {:induction false} LexLeCommonPrefix(a: string, b: string, c: string)
    ensures LexLe(a + b, a + c) == LexLe(b, c)
    decreases |a|
  {
    if |a| > 0 {
      assert (a + b)[0] == a[0] == (a + c)[0];
      assert (a + b)[1..] == a[1..] + b;
      assert (a + c)[1..] == a[1..] + c;
      LexLeCommonPrefix(a[1..], b, c);
    } else {
      assert a + b == b && a + c == c;
    }
  }

  /** Two different strings of one length decide the order of anything
      appended to them. */
  lemma {:induction false} LexLeDecidedEarly(p: string, q: string, x: string, y: string)
    requires |p| == |q| && p != q
    ensures LexLe(p + x, q + y) == LexLe(p, q)
    decreases |p|
  {
    assert |p| > 0;
    assert (p + x)[0] == p[0] && (q + y)[0] == q[0];
    if p[0] == q[0] {
      assert p[1..] != q[1..] by {
        assert p == [p[0]] + p[1..] && q == [q[0]] + q[1..];
      }
      assert (p + x)[1..] == p[1..] + x;
      assert (q + y)[1..] == q[1..] + y;
      LexLeDecidedEarly(p[1..], q[1..], x, y);
    }
  }

  lemma {:induction false} ValueOfFront(s: string)
    requires |s| > 0 && AllDigits(s)
    ensures ValueOf(s) == DigitValue(s[0]) * Pow10(|s| - 1) + ValueOf(s[1..])
    decreases |s|
  {
    if |s| > 1 {
      var init, tail := s[..|s| - 1], s[1..];
      ValueOfFront(init);
      assert init[1..] == tail[..|tail| - 1];
      assert tail[|tail| - 1] == s[|s| - 1];
      assert ValueOf(tail) == 10 * ValueOf(init[1..]) + DigitValue(s[|s| - 1]);
      ShiftDigit(DigitValue(s[0]), Pow10(|s| - 2), ValueOf(init[1..]), DigitValue(s[|s| - 1]));
    }
  }

  lemma ShiftDigit(d: nat, p: nat, v: nat, l: nat)
    ensures 10 * (d * p + v) + l == d * (10 * p) + (10 * v + l)
  {
  }

  lemma {:induction false} ValueOfBound(s: string)
    requires AllDigits(s)
    ensures ValueOf(s) < Pow10(|s|)
    decreases |s|
  {
    if |s| > 0 {
      ValueOfBound(s[..|s| - 1]);
    }
  }

  lemma LeadingDigitDecides(d: nat, e: nat, p: nat, x: nat, y: nat)
    requires d < e && x < p
    ensures d * p + x < e * p + y
  {
    assert (d + 1) * p <= e * p;
  }

  /** For digit strings of one length, the string order is the numeric order. */
  lemma {:induction false} DigitOrder(s: string, t: string)
    requires AllDigits(s) && AllDigits(t) && |s| == |t|
    ensures LexLe(s, t) <==> ValueOf(s) <= ValueOf(t)
    decreases |s|
  {
    if |s| > 0 {
      var p := Pow10(|s| - 1);
      var ds, dt := DigitValue(s[0]), DigitValue(t[0]);
      ValueOfFront(s);
      ValueOfFront(t);
      if ds < dt {
        ValueOfBound(s[1..]);
        LeadingDigitDecides(ds, dt, p, ValueOf(s[1..]), ValueOf(t[1..]));
        assert s[0] < t[0];
      } else if dt < ds {
        ValueOfBound(t[1..]);
        LeadingDigitDecides(dt, ds, p, ValueOf(t[1..]), ValueOf(s[1..]));
        assert t[0] < s[0];
      } else {
        assert s[0] == t[0];
        DigitOrder(s[1..], t[1..]);
      }
    }
  }

  /** Padded numbers below 10^width sort as the numbers do. */
  lemma ZeroPadOrder(a: nat, b: nat, width: nat)
    requires 1 <= width && a < Pow10(width) && b < Pow10(width)
    ensures LexLe(ZeroPad(a, width), ZeroPad(b, width)) <==> a <= b
  {
    ZeroPadExactWidth(a, width);
    ZeroPadExactWidth(b, width);
    ZeroPadRoundTrip(a, width);
    ZeroPadRoundTrip(b, width);
    DigitOrder(ZeroPad(a, width), ZeroPad(b, width));
  }

  // ---------------------------------------------------------------------
  // Paths

  /** The index of the last `c` in `s`, or -1 (`str.rfind`). */
  function LastIndexOf(s: string, c: char): (r: int)
    ensures -1 <= r < |s|
    ensures r >= 0 ==> s[r] == c
    ensures forall i :: r < i < |s| ==> s[i] != c
  {
    if s == [] then -1
    else if s[|s| - 1] == c then |s| - 1
    else LastIndexOf(s[..|s| - 1], c)
  }

  /** `os.path.join(folder, name)` for a folder name that does not end in a
      slash and a relative name. */
  function Join(folder: string, name: string): string
  {
    folder + "/" + name
  }

  /** Different names joined to the same folder give different paths. */
  lemma JoinInjective(folder: string, a: string, b: string)
    requires Join(folder, a) == Join(folder, b)
    ensures a == b
  {
    assert Join(folder, a)[|folder| + 1..] == a;
    assert Join(folder, b)[|folder| + 1..] == b;
  }

  /** `os.path.basename`: the text after the last slash, that is, the
      longest suffix without a slash. */
  function Basename(p: string): (r: string)
    ensures '/' !in r
    ensures EndsWith(p, r)
    ensures |r| == |p| || p[|p| - |r| - 1] == '/'
  {
    var i := LastIndexOf(p, '/') + 1;
    assert p[|p| - |p[i..]|..] == p[i..];
    p[i..]
  }

  lemma BasenameOfJoin(folder: string, name: string)
    requires '/' !in name
    ensures Basename(Join(folder, name)) == name
  {
    var p := Join(folder, name);
    assert p[|folder|] == '/';
    assert forall i :: |folder| < i < |p| ==> p[i] == name[i - |folder| - 1];
    assert p[|folder| + 1..] == name;
  }

  /** `os.path.splitext(p)[1]` on POSIX: the text from the last dot of the
      last path component, provided that component has a character other
      than a dot before that last dot; otherwise empty. */
  function Extension(p: string): (ext: string)
    ensures ext == [] || (ext[0] == '.' && EndsWith(p, ext) && '/' !in ext && '.' !in ext[1..])
    ensures ext != [] <==> exists d, k :: 0 <= k < d < |p| && p[d] == '.' && p[k] != '.' &&
                                         forall i :: k <= i < |p| ==> p[i] != '/'
  {
    var sep := LastIndexOf(p, '/');
    var dot := LastIndexOf(p, '.');
    if dot > sep && exists k :: sep < k < dot && p[k] != '.' then
      assert p[|p| - |p[dot..]|..] == p[dot..];
      assert forall i :: 1 <= i < |p[dot..]| ==> p[dot..][i] == p[dot + i];
      p[dot..]
    else []
  }

  /** `s.split(sep)[0]`: the text before the first separator, or all of
      `s` when it has none. */
  function BeforeFirst(s: string, sep: char): (r: string)
    ensures StartsWith(s, r)
    ensures sep !in r
    ensures |r| == |s| || s[|r|] == sep
  {
    if s == [] || s[0] == sep then []
    else
      var rest := BeforeFirst(s[1..], sep);
      assert s[..1 + |rest|] == [s[0]] + s[1..][..|rest|];
      [s[0]] + rest
  }

  /** Splitting `prefix + [sep] + rest` at the first separator gives back
      `prefix` when `prefix` has no separator. */
  lemma {:induction false} BeforeFirstOfJoined(prefix: string, sep: char, rest: string)
    requires sep !in prefix
    ensures BeforeFirst(prefix + [sep] + rest, sep) == prefix
  {
    if prefix != [] {
      var s := prefix + [sep] + rest;
      assert s[1..] == prefix[1..] + [sep] + rest;
      BeforeFirstOfJoined(prefix[1..], sep, rest);
    }
  }
}
