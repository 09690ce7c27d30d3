/** The few Python `str` operations the library depends on, written out
    so that their exact behaviour is part of the model: argument-less
    `strip()`, `lower()` as far as a comparison with "yes" can tell, and
    the decimal rendering `f'{n}'` used to mint identifiers. */
module Text {

  /** Python's `str.isspace()` characters, which are exactly the ones an
      argument-less `strip()` removes. */
  predicate IsSpace(c: char) {
    var n := c as int;
    || 0x09 <= n <= 0x0D
    || 0x1C <= n <= 0x20
    || n == 0x85 || n == 0xA0 || n == 0x1680
    || 0x2000 <= n <= 0x200A
    || n == 0x2028 || n == 0x2029 || n == 0x202F || n == 0x205F || n == 0x3000
  }

  predicate AllSpace(s: string) {
    forall i | 0 <= i < |s| :: IsSpace(s[i])
  }

  /** `lstrip()`: the longest suffix of `s` that does not start with a space. */
  function TrimStart(s: string): (r: string)
    ensures |r| <= |s| && r == s[|s| - |r|..]
    ensures forall i | 0 <= i < |s| - |r| :: IsSpace(s[i])
    ensures r == [] || !IsSpace(r[0])
    decreases |s|
  {
    if |s| > 0 && IsSpace(s[0]) then TrimStart(s[1..]) else s
  }

  /** `rstrip()`: the longest prefix of `s` that does not end with a space. */
  function TrimEnd(s: string): (r: string)
    ensures |r| <= |s| && r == s[..|r|]
    ensures forall i | |r| <= i < |s| :: IsSpace(s[i])
    ensures r == [] || !IsSpace(r[|r| - 1])
    decreases |s|
  {
    if |s| > 0 && IsSpace(s[|s| - 1]) then TrimEnd(s[..|s| - 1]) else s
  }

  /** `strip()`. */
  function Strip(s: string): (r: string)
    ensures |r| <= |s|
    ensures r == [] || (!IsSpace(r[0]) && !IsSpace(r[|r| - 1]))
    ensures r == [] <==> AllSpace(s)
    ensures exists a, b | 0 <= a <= b <= |s| :: r == s[a..b] && AllSpace(s[..a]) && AllSpace(s[b..])
  {
    var t := TrimStart(s);
    var r := TrimEnd(t);
    TrimStartCut(s);
    TrimEndCut(t);
    SpaceCutsCompose(s, t, r);
    r
  }

  /** Cutting white space off the front of `s`, giving `t`, and then off
      the back of `t`, giving `r`, leaves `r` as one slice of `s`. */
  lemma SpaceCutsCompose(s: string, t: string, r: string)
    requires |t| <= |s| && t == s[|s| - |t|..] && AllSpace(s[..|s| - |t|])
    requires |r| <= |t| && r == t[..|r|] && AllSpace(t[|r|..])
    ensures var a := |s| - |t|;
      var b := a + |r|;
      && r == s[a..b]
      && AllSpace(s[b..])
  {
    var a := |s| - |t|;
    var b := a + |r|;
    assert s[b..] == t[|r|..];
  }

  lemma TrimStartCut(s: string)
    ensures AllSpace(s[..|s| - |TrimStart(s)|])
  {
    var a := |s| - |TrimStart(s)|;
    forall i | 0 <= i < a ensures IsSpace(s[..a][i]) {
      assert s[..a][i] == s[i];
    }
  }

  lemma TrimEndCut(t: string)
    ensures AllSpace(t[|TrimEnd(t)|..])
  {
    var n := |TrimEnd(t)|;
    forall i | 0 <= i < |t| - n ensures IsSpace(t[n..][i]) {
      assert t[n..][i] == t[n + i];
    }
  }

  lemma {:induction false} TrimStartSkipsSpace(p: string, u: string)
    requires AllSpace(p)
    ensures TrimStart(p + u) == TrimStart(u)
    decreases |p|
  {
    if |p| > 0 {
      assert (p + u)[1..] == p[1..] + u;
      TrimStartSkipsSpace(p[1..], u);
    } else {
      assert p + u == u;
    }
  }

  lemma {:induction false} TrimStartAppend(t: string, q: string)
    requires TrimStart(t) != []
    ensures TrimStart(t + q) == TrimStart(t) + q
    decreases |t|
  {
    assert |t| > 0;
    if IsSpace(t[0]) {
      assert (t + q)[1..] == t[1..] + q;
      TrimStartAppend(t[1..], q);
    }
  }

  lemma {:induction false} TrimEndSkipsSpace(u: string, q: string)
    requires AllSpace(q)
    ensures TrimEnd(u + q) == TrimEnd(u)
    decreases |q|
  {
    if |q| > 0 {
      assert (u + q)[..|u + q| - 1] == u + q[..|q| - 1];
      TrimEndSkipsSpace(u, q[..|q| - 1]);
    } else {
      assert u + q == u;
    }
  }

  /** Surrounding whitespace never changes what `strip()` yields: a title
      typed with stray spaces around it strips to the same string. */
  lemma StripIgnoresPadding(p: string, t: string, q: string)
    requires AllSpace(p) && AllSpace(q)
    ensures Strip(p + t + q) == Strip(t)
  {
    TrimsIgnorePadding(p, t, q);
  }

  lemma TrimsIgnorePadding(p: string, t: string, q: string)
    requires AllSpace(p) && AllSpace(q)
    ensures TrimEnd(TrimStart(p + t + q)) == TrimEnd(TrimStart(t))
  {
    assert p + t + q == p + (t + q);
    TrimStartSkipsSpace(p, t + q);
    if TrimStart(t) == [] {
      assert AllSpace(t + q);
      assert TrimStart(t + q) == [];
    } else {
      TrimStartAppend(t, q);
      TrimEndSkipsSpace(TrimStart(t), q);
    }
  }

  /** Stripping twice is stripping once. */
  lemma StripIdempotent(s: string)
    ensures Strip(Strip(s)) == Strip(s)
  {
    var r := Strip(s);
    if r != [] {
      assert TrimStart(r) == r;
      assert TrimEnd(r) == r;
    }
  }

  /** ASCII-only `lower()`. Python also lowercases other letters, but no
      character outside 'A'..'Z' lowercases to 'y', 'e' or 's', so a
      comparison of the result with "yes" comes out the same. */
  function ToLower(s: string): string {
    seq(|s|, i requires 0 <= i < |s| => if 'A' <= s[i] <= 'Z' then (s[i] as int + 32) as char else s[i])
  }

  /** `answer.lower() == 'yes'` holds exactly for the eight spellings of
      "yes" in upper and lower case. */
  lemma LowerIsYes(answer: string)
    ensures ToLower(answer) == "yes" <==>
      |answer| == 3 && answer[0] in "yY" && answer[1] in "eE" && answer[2] in "sS"
  {
    var lowered := ToLower(answer);
    if |answer| == 3 && answer[0] in "yY" && answer[1] in "eE" && answer[2] in "sS" {
      assert lowered == "yes";
    }
    if lowered == "yes" {
      assert |answer| == |lowered| == 3;
      assert lowered[0] == 'y' && lowered[1] == 'e' && lowered[2] == 's';
    }
  }

  function DigitChar(d: nat): (c: char)
    requires d < 10
    ensures '0' <= c <= '9'
  {
    (('0' as int) + d) as char
  }

  /** `str(n)`: decimal digits, most significant first, no leading zero. */
  function Decimal(n: nat): (r: string)
    ensures |r| >= 1
    ensures forall i | 0 <= i < |r| :: '0' <= r[i] <= '9'
    ensures n > 0 ==> r[0] != '0'
    decreases n
  {
    if n < 10 then [DigitChar(n)] else Decimal(n / 10) + [DigitChar(n % 10)]
  }

  /** `int(s)` for a string of decimal digits. */
  function ParseDecimal(s: string): nat
    requires forall i | 0 <= i < |s| :: '0' <= s[i] <= '9'
  {
    if |s| == 0 then 0
    else ParseDecimal(s[..|s| - 1]) * 10 + (s[|s| - 1] as int - '0' as int)
  }

  /** Reading back a rendered number gives the number. */
  lemma {:induction false} ParseDecimalInverts(n: nat)
    ensures ParseDecimal(Decimal(n)) == n
    decreases n
  {
    var r := Decimal(n);
    if n < 10 {
      assert r[..|r| - 1] == [];
    } else {
      assert r[..|r| - 1] == Decimal(n / 10);
      ParseDecimalInverts(n / 10);
    }
  }

  /** Distinct numbers render to distinct strings. */
  lemma DecimalInjective(a: nat, b: nat)
    requires Decimal(a) == Decimal(b)
    ensures a == b
  {
    ParseDecimalInverts(a);
    ParseDecimalInverts(b);
  }
}
