/** Join codes: the normalisation `join_code.strip().upper()` applied to user input,
    the code format (six characters from A-Z and 0-9), and `_generate_unique_code`. */
module JoinCodes {
  import opened Models

  const CodeLength: nat := 6

  /** Python's `str.isspace` characters, the ones `strip()` removes. */
  predicate IsSpace(c: char) {
    var n := c as int;
    || 0x09 <= n <= 0x0D || 0x1C <= n <= 0x20 || n == 0x85 || n == 0xA0 || n == 0x1680
    || 0x2000 <= n <= 0x200A || n == 0x2028 || n == 0x2029 || n == 0x202F || n == 0x205F
    || n == 0x3000
  }

  predicate AllSpace(s: string) {
    forall i :: 0 <= i < |s| ==> IsSpace(s[i])
  }

  /** `lstrip()`: drops the leading whitespace. */
  function TrimStart(s: string): (r: string)
    ensures |r| <= |s| && r == s[|s| - |r|..]
    ensures AllSpace(s[..|s| - |r|])
    ensures r == [] || !IsSpace(r[0])
  {
    if s != [] && IsSpace(s[0]) then
      var r := TrimStart(s[1..]);
      DropLeadingSpace(s, r);
      r
    else s
  }

  /** Putting a whitespace character back in front of an lstripped tail keeps it
      an lstrip of the whole string. */
  lemma DropLeadingSpace(s: string, r: string)
    requires s != [] && IsSpace(s[0])
    requires |r| <= |s| - 1 && r == s[1..][|s| - 1 - |r|..]
    requires AllSpace(s[1..][..|s| - 1 - |r|])
    ensures r == s[|s| - |r|..]
    ensures AllSpace(s[..|s| - |r|])
  {
    var t, n := s[1..], |s| - |r|;
    assert t[n - 1..] == s[n..];
    forall i | 0 <= i < n
      ensures IsSpace(s[..n][i])
    {
      if i > 0 {
        assert s[..n][i] == t[..n - 1][i - 1];
      }
    }
  }

  /** `rstrip()`: drops the trailing whitespace. */
  function TrimEnd(s: string): (r: string)
    ensures |r| <= |s| && r == s[..|r|]
    ensures AllSpace(s[|r|..])
    ensures r == [] || !IsSpace(r[|r| - 1])
  {
    if s != [] && IsSpace(s[|s| - 1]) then
      var init := s[..|s| - 1];
      var r := TrimEnd(init);
      assert init[..|r|] == s[..|r|];
      assert s[|r|..] == init[|r|..] + [s[|s| - 1]];
      r
    else s
  }

  /** `strip()`: a slice of the input with whitespace on neither end, all the
      whitespace around it removed. */
  function Strip(s: string): (r: string)
    ensures exists i, j :: 0 <= i <= j <= |s| && r == s[i..j] && AllSpace(s[..i]) && AllSpace(s[j..])
    ensures r == [] || (!IsSpace(r[0]) && !IsSpace(r[|r| - 1]))
  {
    var t := TrimStart(s);
    var r := TrimEnd(t);
    var i := |s| - |t|;
    SliceOfSuffix(s, i, |r|);
    r
  }

  /** Slicing the suffix of `s` from `i` is slicing `s` shifted by `i`. */
  lemma SliceOfSuffix(s: string, i: nat, n: nat)
    requires i + n <= |s|
    ensures s[i..][..n] == s[i..i + n]
    ensures s[i..][n..] == s[i + n..]
  {
  }

  /** `upper()` on one character; only the ASCII letters are mapped here. */
  function UpperChar(c: char): char {
    if 'a' <= c <= 'z' then (c as int - 32) as char else c
  }

  function Upper(s: string): (r: string)
    ensures |r| == |s|
  {
    seq(|s|, i requires 0 <= i < |s| => UpperChar(s[i]))
  }

  /** `join_code.strip().upper()`. */
  function Normalize(s: string): (r: string)
    ensures |r| <= |s|
    ensures r == [] || (!IsSpace(r[0]) && !IsSpace(r[|r| - 1]))
  {
    var t := Strip(s);
    UpperKeepsEnds(t);
    Upper(t)
  }

  /** The characters of `string.ascii_uppercase + string.digits`. */
  predicate IsCodeChar(c: char) {
    'A' <= c <= 'Z' || '0' <= c <= '9'
  }

  predicate IsJoinCode(s: string) {
    |s| == CodeLength && forall i :: 0 <= i < |s| ==> IsCodeChar(s[i])
  }

  /** Stripping a string that has whitespace on neither end gives it back, and
      padding it with whitespace on both sides does not change that. */
  lemma {:induction false} StripPadded(pre: string, x: string, post: string)
    requires AllSpace(pre) && AllSpace(post)
    requires x == [] || (!IsSpace(x[0]) && !IsSpace(x[|x| - 1]))
    ensures Strip(pre + x + post) == x
  {
    if x == [] {
      assert pre + x + post == (pre + post) + [];
      TrimStartPadded(pre + post, []);
    } else {
      assert pre + x + post == pre + (x + post);
      TrimStartPadded(pre, x + post);
      TrimEndPadded(x, post);
    }
  }

  lemma {:induction false} TrimStartPadded(pre: string, rest: string)
    requires AllSpace(pre)
    requires rest == [] || !IsSpace(rest[0])
    ensures TrimStart(pre + rest) == rest
  {
    if pre != [] {
      assert (pre + rest)[1..] == pre[1..] + rest;
      TrimStartPadded(pre[1..], rest);
    }
  }

  lemma {:induction false} TrimEndPadded(x: string, post: string)
    requires AllSpace(post)
    requires x == [] || !IsSpace(x[|x| - 1])
    ensures TrimEnd(x + post) == x
  {
    if post != [] {
      assert (x + post)[..|x + post| - 1] == x + post[..|post| - 1];
      TrimEndPadded(x, post[..|post| - 1]);
    } else {
      assert x + post == x;
    }
  }

  /** A string with whitespace on neither end is its own strip. */
  lemma StripClean(x: string)
    requires x == [] || (!IsSpace(x[0]) && !IsSpace(x[|x| - 1]))
    ensures Strip(x) == x
  {
    StripPadded([], x, []);
    assert [] + x + [] == x;
  }

  /** A character whose upper case is a code character is not whitespace. */
  lemma CodeCharNotSpace(c: char)
    requires IsCodeChar(UpperChar(c))
    ensures !IsSpace(c)
  {
  }

  /** Upper-casing keeps a string free of whitespace at both ends. */
  lemma UpperKeepsEnds(t: string)
    requires t == [] || (!IsSpace(t[0]) && !IsSpace(t[|t| - 1]))
    ensures var u := Upper(t); u == [] || (!IsSpace(u[0]) && !IsSpace(u[|u| - 1]))
  {
    if t != [] {
      var u := Upper(t);
      assert u[0] == UpperChar(t[0]);
      assert u[|u| - 1] == UpperChar(t[|t| - 1]);
    }
  }

  /** Upper-casing an upper-cased string changes nothing. */
  lemma UpperIdempotent(t: string)
    ensures Upper(Upper(t)) == Upper(t)
  {
    var u := Upper(t);
    assert forall i :: 0 <= i < |u| ==> Upper(u)[i] == u[i];
  }

  /** A well-formed code is its own normal form. */
  lemma NormalizeCode(code: string)
    requires IsJoinCode(code)
    ensures Normalize(code) == code
  {
    CodeCharNotSpace(code[0]);
    CodeCharNotSpace(code[|code| - 1]);
    StripClean(code);
    UpperKeepsCode(code);
  }

  lemma UpperKeepsCode(code: string)
    requires IsJoinCode(code)
    ensures Upper(code) == code
  {
    assert forall i :: 0 <= i < |code| ==> Upper(code)[i] == code[i];
  }

  /** A code typed in any ASCII letter case and surrounded by whitespace
      normalises to the upper-case code. */
  lemma TypedCodeNormalizes(pre: string, typed: string, post: string)
    requires AllSpace(pre) && AllSpace(post)
    requires IsJoinCode(Upper(typed))
    ensures Normalize(pre + typed + post) == Upper(typed)
  {
    var u := Upper(typed);
    assert u[0] == UpperChar(typed[0]) && u[|u| - 1] == UpperChar(typed[|typed| - 1]);
    CodeCharNotSpace(typed[0]);
    CodeCharNotSpace(typed[|typed| - 1]);
    StripPadded(pre, typed, post);
  }

  /** Normalising twice is normalising once. */
  lemma NormalizeIdempotent(s: string)
    ensures Normalize(Normalize(s)) == Normalize(s)
  {
    var t := Strip(s);
    var u := Upper(t);
    UpperKeepsEnds(t);
    StripClean(u);
    UpperIdempotent(t);
  }

  /** The `i`-th character of the alphabet `A-Z` followed by `0-9`. */
  function DigitChar(d: nat): (c: char)
    requires d < 36
    ensures IsCodeChar(c)
  {
    if d < 26 then ('A' as int + d) as char else ('0' as int + d - 26) as char
  }

  lemma DigitCharInjective(a: nat, b: nat)
    requires a < 36 && b < 36 && DigitChar(a) == DigitChar(b)
    ensures a == b
  {
  }

  /** One draw of the loop: `secrets.choice(alphabet)` for each of the six positions,
      the oracle giving the index of each chosen character. */
  function DrawCode(picks: seq<nat>): (r: string)
    requires |picks| == CodeLength
    ensures IsJoinCode(r)
  {
    [ DigitChar(picks[0] % 36), DigitChar(picks[1] % 36), DigitChar(picks[2] % 36),
      DigitChar(picks[3] % 36), DigitChar(picks[4] % 36), DigitChar(picks[5] % 36) ]
  }

  function Pow36(n: nat): nat {
    if n == 0 then 1 else 36 * Pow36(n - 1)
  }

  /** The code spelling `k` in base 36 over the alphabet, on `len` positions. */
  function EnumeratedCode(k: nat, len: nat): (r: string)
    ensures |r| == len
    ensures forall i :: 0 <= i < len ==> IsCodeChar(r[i])
  {
    if len == 0 then [] else EnumeratedCode(k / 36, len - 1) + [DigitChar(k % 36)]
  }

  /** Distinct numbers below `36^len` spell distinct codes. */
  lemma {:induction false} EnumeratedCodeInjective(a: nat, b: nat, len: nat)
    requires a < Pow36(len) && b < Pow36(len)
    requires EnumeratedCode(a, len) == EnumeratedCode(b, len)
    ensures a == b
  {
    if len > 0 {
      var ca, cb := EnumeratedCode(a, len), EnumeratedCode(b, len);
      assert ca[len - 1] == DigitChar(a % 36) && cb[len - 1] == DigitChar(b % 36);
      DigitCharInjective(a % 36, b % 36);
      assert ca[..len - 1] == EnumeratedCode(a / 36, len - 1);
      assert cb[..len - 1] == EnumeratedCode(b / 36, len - 1);
      EnumeratedCodeInjective(a / 36, b / 36, len - 1);
    }
  }

  /** A set holding the first `n` codes of the base-36 order has at least `n` members. */
  lemma {:induction false} EnumeratedCount(existing: set<string>, n: nat)
    requires n <= Pow36(CodeLength)
    requires forall k :: 0 <= k < n ==> EnumeratedCode(k, CodeLength) in existing
    ensures n <= |existing|
  {
    if n > 0 {
      var last := EnumeratedCode(n - 1, CodeLength);
      var rest := existing - {last};
      forall k | 0 <= k < n - 1
        ensures EnumeratedCode(k, CodeLength) in rest
      {
        if EnumeratedCode(k, CodeLength) == last {
          EnumeratedCodeInjective(k, n - 1, CodeLength);
        }
      }
      EnumeratedCount(rest, n - 1);
    }
  }

  /** The code tried at attempt `t`: the oracle's draws first, then, should they all
      collide, the codes in base-36 order, one more possible sequence of draws. */
  function Candidate(draws: seq<seq<nat>>, t: nat): (r: string)
    requires forall k :: 0 <= k < |draws| ==> |draws[k]| == CodeLength
    ensures IsJoinCode(r)
    ensures t < |draws| ==> r == DrawCode(draws[t])
    ensures t >= |draws| ==> r == EnumeratedCode(t - |draws|, CodeLength)
  {
    if t < |draws| then DrawCode(draws[t]) else EnumeratedCode(t - |draws|, CodeLength)
  }

  /** The first of the oracle's draws, from position `from` on, that spells a code
      not in `existing`. */
  function FirstFreshDraw(existing: set<string>, draws: seq<seq<nat>>, from: nat): (r: Option<nat>)
    requires forall k :: 0 <= k < |draws| ==> |draws[k]| == CodeLength
    ensures r.Some? ==> (from <= r.value < |draws| && DrawCode(draws[r.value]) !in existing
      && forall i :: from <= i < r.value ==> DrawCode(draws[i]) in existing)
    ensures r.None? ==> forall i :: from <= i < |draws| ==> DrawCode(draws[i]) in existing
    decreases |draws| - from
  {
    if from >= |draws| then None
    else if DrawCode(draws[from]) !in existing then Some(from)
    else FirstFreshDraw(existing, draws, from + 1)
  }

  /** The candidate of attempt `i` is already in use. */
  ghost predicate Collides(existing: set<string>, draws: seq<seq<nat>>, i: nat)
    requires forall k :: 0 <= k < |draws| ==> |draws[k]| == CodeLength
  {
    Candidate(draws, i) in existing
  }

  /** When every candidate before attempt `t` is taken and the one at `t` is not,
      enough codes are taken to bound the attempts past the draws. */
  lemma CandidatesCount(existing: set<string>, draws: seq<seq<nat>>, t: nat)
    requires forall k :: 0 <= k < |draws| ==> |draws[k]| == CodeLength
    requires |draws| <= t <= |draws| + Pow36(CodeLength)
    requires forall i {:trigger Collides(existing, draws, i)} :: 0 <= i < t ==> Collides(existing, draws, i)
    ensures t - |draws| <= |existing|
  {
    forall k | 0 <= k < t - |draws|
      ensures EnumeratedCode(k, CodeLength) in existing
    {
      var i := |draws| + k;
      assert Collides(existing, draws, i);
    }
    EnumeratedCount(existing, t - |draws|);
  }

  /** One more colliding attempt keeps the retry loop within `|draws| + |existing|`
      attempts. */
  lemma RetryStep(existing: set<string>, draws: seq<seq<nat>>, t: nat)
    requires forall k :: 0 <= k < |draws| ==> |draws[k]| == CodeLength
    requires |existing| < Pow36(CodeLength) && t <= |draws| + |existing|
    requires forall i {:trigger Collides(existing, draws, i)} :: 0 <= i < t ==> Collides(existing, draws, i)
    requires Candidate(draws, t) in existing
    ensures forall i {:trigger Collides(existing, draws, i)} :: 0 <= i <= t ==> Collides(existing, draws, i)
    ensures t < |draws| + |existing|
  {
    assert Collides(existing, draws, t);
    if t >= |draws| {
      CandidatesCount(existing, draws, t + 1);
    }
  }

  /** The attempt the retry loop stops at is the first fresh draw, if it is a draw. */
  lemma {:induction false} FreshDrawFrom(existing: set<string>, draws: seq<seq<nat>>, t: nat, from: nat)
    requires forall k :: 0 <= k < |draws| ==> |draws[k]| == CodeLength
    requires from <= t
    requires forall i {:trigger Collides(existing, draws, i)} :: from <= i < t ==> Collides(existing, draws, i)
    requires Candidate(draws, t) !in existing
    ensures FirstFreshDraw(existing, draws, from) == if t < |draws| then Some(t) else None
    decreases t - from
  {
    if from < |draws| && from < t {
      assert Collides(existing, draws, from);
      FreshDrawFrom(existing, draws, t, from + 1);
    }
  }

  /** `_generate_unique_code`: retries until a code no existing game uses comes up.
      The result is the first fresh code among the oracle's draws when there is one. */
  method GenerateUniqueCode(existing: set<string>, draws: seq<seq<nat>>) returns (code: string)
    requires forall k :: 0 <= k < |draws| ==> |draws[k]| == CodeLength
    requires |existing| < Pow36(CodeLength)
    ensures IsJoinCode(code) && code !in existing
    ensures var first := FirstFreshDraw(existing, draws, 0);
      first.Some? ==> code == DrawCode(draws[first.value])
  {
    var t := 0;
    code := Candidate(draws, t);
    while code in existing
      invariant code == Candidate(draws, t)
      invariant forall i {:trigger Collides(existing, draws, i)} :: 0 <= i < t ==> Collides(existing, draws, i)
      invariant t <= |draws| + |existing|
      decreases |draws| + |existing| - t
    {
      RetryStep(existing, draws, t);
      t := t + 1;
      code := Candidate(draws, t);
    }
    FreshDrawFrom(existing, draws, t, 0);
  }
}
