/** Text helpers the line parser relies on: Rust's `str::trim`, nom's
    `take_until` for a one-character delimiter, and `str::replace` of one
    character by another. Strings are sequences of Unicode scalar values. */
module Text {
  import opened Wrappers

  /** The Unicode White_Space property, the set `char::is_whitespace` and
      `str::trim` use. */
  predicate IsWhitespace(c: char) {
    ('\t' <= c <= '\r') || c == ' ' || c == '\U{0085}' || c == '\U{00A0}'
    || c == '\U{1680}' || ('\U{2000}' <= c <= '\U{200A}') || c == '\U{2028}'
    || c == '\U{2029}' || c == '\U{202F}' || c == '\U{205F}' || c == '\U{3000}'
  }

  /** Empty, or made only of whitespace. */
  predicate IsBlank(s: string) {
    forall i :: 0 <= i < |s| ==> IsWhitespace(s[i])
  }

  /** Neither end of `s` is whitespace. */
  predicate IsTrimmed(s: string) {
    s == [] || (!IsWhitespace(s[0]) && !IsWhitespace(s[|s| - 1]))
  }

  /** `str::trim_start`: `s` without its leading whitespace. */
  function TrimStart(s: string): (r: string)
    ensures |r| <= |s|
  {
    if s == [] || !IsWhitespace(s[0]) then s else TrimStart(s[1..])
  }

  /** What `TrimStart` removes is a blank prefix, and what it keeps is the
      rest of `s`, starting at a character that is not whitespace. */
  lemma {:induction false} TrimStartSpec(s: string)
    ensures var r := TrimStart(s);
      r == s[|s| - |r|..] && IsBlank(s[..|s| - |r|]) && (r == [] || !IsWhitespace(r[0]))
  {
    if s != [] && IsWhitespace(s[0]) {
      var r := TrimStart(s[1..]);
      TrimStartSpec(s[1..]);
      assert s[..|s| - |r|] == [s[0]] + s[1..][..|s| - 1 - |r|];
    }
  }

  /** `str::trim_end`: `s` without its trailing whitespace. */
  function TrimEnd(s: string): (r: string)
    ensures |r| <= |s|
  {
    if s == [] || !IsWhitespace(s[|s| - 1]) then s else TrimEnd(s[..|s| - 1])
  }

  /** What `TrimEnd` removes is a blank suffix, and what it keeps is the
      start of `s`, ending at a character that is not whitespace. */
  lemma {:induction false} TrimEndSpec(s: string)
    ensures var r := TrimEnd(s);
      r == s[..|r|] && IsBlank(s[|r|..]) && (r == [] || !IsWhitespace(r[|r| - 1]))
  {
    if s != [] && IsWhitespace(s[|s| - 1]) {
      var r := TrimEnd(s[..|s| - 1]);
      TrimEndSpec(s[..|s| - 1]);
      assert s[|r|..] == s[..|s| - 1][|r|..] + [s[|s| - 1]];
    }
  }

  /** `str::trim`: `s` without its leading and trailing whitespace. It is
      empty exactly for blank text (the test `line.trim().is_empty()`). */
  function Trim(s: string): (r: string)
    ensures IsTrimmed(r)
    ensures r == [] <==> IsBlank(s)
  {
    TrimSlices(s, TrimStart(s), TrimEnd(TrimStart(s)));
    TrimEnd(TrimStart(s))
  }

  /** The trimmed text is a slice of `s` with only whitespace before and
      after it. */
  lemma {:induction false} TrimIsSlice(s: string)
    ensures var r := Trim(s); var i := |s| - |TrimStart(s)|;
      i + |r| <= |s| && r == s[i..i + |r|] && IsBlank(s[..i]) && IsBlank(s[i + |r|..])
  {
    TrimSlices(s, TrimStart(s), Trim(s));
  }

  lemma {:induction false} TrimSlices(s: string, t: string, r: string)
    requires t == TrimStart(s) && r == TrimEnd(t)
    ensures IsTrimmed(r)
    ensures r == [] <==> IsBlank(s)
    ensures var i := |s| - |t|;
      i + |r| <= |s| && r == s[i..i + |r|] && IsBlank(s[..i]) && IsBlank(s[i + |r|..])
  {
    var i := |s| - |t|;
    TrimStartSpec(s);
    TrimEndSpec(t);
    assert t == s[i..] && r == t[..|r|];
    assert s[i..][..|r|] == s[i..i + |r|];
    assert s[i..][|r|..] == s[i + |r|..];
    if r == [] {
      BlankConcat(s[..i], t);
      assert s == s[..i] + t;
    }
  }

  lemma {:induction false} BlankConcat(a: string, b: string)
    requires IsBlank(a) && IsBlank(b)
    ensures IsBlank(a + b)
  {
    forall k | 0 <= k < |a + b| ensures IsWhitespace((a + b)[k]) {
      if k < |a| { assert (a + b)[k] == a[k]; } else { assert (a + b)[k] == b[k - |a|]; }
    }
  }

  /** Trimming removes exactly blank padding: any trimmed text surrounded by
      whitespace trims back to itself. */
  lemma {:induction false} TrimPadded(lead: string, core: string, trail: string)
    requires IsBlank(lead) && IsBlank(trail) && IsTrimmed(core)
    ensures Trim(lead + core + trail) == core
  {
    var s := lead + core + trail;
    if core == [] {
      assert s == lead + trail;
      BlankConcat(lead, trail);
    } else {
      TrimStartPadded(lead, core + trail);
      assert lead + core + trail == lead + (core + trail);
      TrimEndPadded(core, trail);
    }
  }

  lemma {:induction false} TrimStartPadded(lead: string, rest: string)
    requires IsBlank(lead) && (rest == [] || !IsWhitespace(rest[0]))
    ensures TrimStart(lead + rest) == rest
  {
    if lead != [] {
      assert (lead + rest)[1..] == lead[1..] + rest;
      TrimStartPadded(lead[1..], rest);
    } else {
      assert lead + rest == rest;
    }
  }

  lemma {:induction false} TrimEndPadded(rest: string, trail: string)
    requires IsBlank(trail) && (rest == [] || !IsWhitespace(rest[|rest| - 1]))
    ensures TrimEnd(rest + trail) == rest
  {
    if trail != [] {
      var s := rest + trail;
      assert s[..|s| - 1] == rest + trail[..|trail| - 1];
      TrimEndPadded(rest, trail[..|trail| - 1]);
    } else {
      assert rest + trail == rest;
    }
  }

  /** Trimming leaves text with no whitespace at either end unchanged. */
  lemma {:induction false} TrimmedIsFixed(s: string)
    ensures IsTrimmed(s) ==> Trim(s) == s
  {
    if IsTrimmed(s) {
      TrimPadded([], s, []);
      assert [] + s + [] == s;
    }
  }

  /** nom's `take_until` on complete input, for a one-character delimiter:
      the text before the first `delim` and the rest starting at it, or
      None when `s` holds no `delim` at all. */
  function TakeUntil(s: string, delim: char): (r: Option<(string, string)>)
    ensures r.Some? ==> |r.value.1| <= |s| && r.value.1 != [] && r.value.1[0] == delim
  {
    if s == [] then None
    else if s[0] == delim then Some(([], s))
    else
      match TakeUntil(s[1..], delim)
      case None => None
      case Some((taken, rest)) => Some(([s[0]] + taken, rest))
  }

  /** take_until fails exactly when `delim` does not occur; otherwise it
      splits `s` just before the first `delim`. */
  lemma {:induction false} TakeUntilSpec(s: string, delim: char)
    ensures TakeUntil(s, delim).None? <==> delim !in s
    ensures TakeUntil(s, delim).Some? ==> var (taken, rest) := TakeUntil(s, delim).value;
      taken + rest == s && delim !in taken
  {
    if s != [] && s[0] != delim {
      TakeUntilSpec(s[1..], delim);
      assert s == [s[0]] + s[1..];
      if TakeUntil(s[1..], delim).Some? {
        var (taken, rest) := TakeUntil(s[1..], delim).value;
        assert [s[0]] + taken + rest == [s[0]] + (taken + rest);
      }
    }
  }

  /** A split at the first `delim` is the one take_until finds. */
  lemma {:induction false} TakeUntilSplit(taken: string, rest: string, delim: char)
    requires delim !in taken
    ensures TakeUntil(taken + [delim] + rest, delim) == Some((taken, [delim] + rest))
  {
    var s := taken + [delim] + rest;
    if taken != [] {
      assert s[1..] == taken[1..] + [delim] + rest;
      TakeUntilSplit(taken[1..], rest, delim);
      assert [taken[0]] + taken[1..] == taken;
    } else {
      assert s == [delim] + rest;
    }
  }

  /** `str::replace` of every `from` character by `to`. */
  function Replace(s: string, from: char, to: char): (r: string)
    ensures |r| == |s|
  {
    if s == [] then []
    else [if s[0] == from then to else s[0]] + Replace(s[1..], from, to)
  }

  /** Each character is replaced on its own: `from` becomes `to`, every
      other character stays. */
  lemma {:induction false} ReplaceAt(s: string, from: char, to: char)
    ensures forall i :: 0 <= i < |s| ==> Replace(s, from, to)[i] == (if s[i] == from then to else s[i])
  {
    if s != [] {
      ReplaceAt(s[1..], from, to);
      var r := Replace(s, from, to);
      forall i | 1 <= i < |s| ensures r[i] == (if s[i] == from then to else s[i]) {
        assert r[i] == Replace(s[1..], from, to)[i - 1];
        assert s[1..][i - 1] == s[i];
      }
    }
  }
}
