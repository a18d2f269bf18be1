/** Quoted string values: writing them to a configuration file and reading them back. */
module KconfEscape {
  import opened KconfExpr

  const NUL: char := '\0'
  const QUOTE: char := '"'
  const BACKSLASH: char := '\\'

  predicate Special(c: char) {
    c == QUOTE || c == BACKSLASH
  }

  predicate NulFree(s: string) {
    forall i :: 0 <= i < |s| ==> s[i] != NUL
  }

  predicate Plain(s: string) {
    forall i :: 0 <= i < |s| ==> !Special(s[i])
  }

  /** A backslash in front of every quote and backslash. */
  function Escape(s: string): string {
    if s == [] then [] else (if Special(s[0]) then [BACKSLASH, s[0]] else [s[0]]) + Escape(s[1..])
  }

  function Specials(s: string): nat {
    if s == [] then 0 else (if Special(s[0]) then 1 else 0) + Specials(s[1..])
  }

  /** The text up to the first quote without a backslash, with one layer of backslashes removed. */
  function Unescape(t: string): Option<string> {
    if t == [] || t == [BACKSLASH] then None
    else if t[0] == QUOTE then Some([])
    else
      var (c, rest) := if t[0] == BACKSLASH then (t[1], t[2..]) else (t[0], t[1..]);
      match Unescape(rest) case None => None case Some(u) => Some([c] + u)
  }

  function Prepend(done: string, rest: Option<string>): Option<string> {
    match rest case None => None case Some(u) => Some(done + u)
  }

  lemma UnescapeHead(c: char, tail: string)
    ensures Unescape((if Special(c) then [BACKSLASH, c] else [c]) + tail) == Prepend([c], Unescape(tail))
    ensures Unescape([BACKSLASH, c] + tail) == Prepend([c], Unescape(tail))
  {
    assert ([BACKSLASH, c] + tail)[2..] == tail;
    assert ([c] + tail)[1..] == tail;
  }

  /** What is saved is read back, whatever follows the closing quote. */
  lemma {:induction false} EscapeThenUnescape(s: string, rest: string)
    ensures Unescape(Escape(s) + [QUOTE] + rest) == Some(s)
  {
    var t := Escape(s) + [QUOTE] + rest;
    if s == [] {
      assert t[0] == QUOTE;
    } else {
      var tail := Escape(s[1..]) + [QUOTE] + rest;
      assert t == (if Special(s[0]) then [BACKSLASH, s[0]] else [s[0]]) + tail;
      EscapeThenUnescape(s[1..], rest);
      UnescapeHead(s[0], tail);
      assert [s[0]] + s[1..] == s;
    }
  }

  lemma {:induction false} EscapeConcat(a: string, b: string)
    ensures Escape(a + b) == Escape(a) + Escape(b)
    ensures Specials(a + b) == Specials(a) + Specials(b)
  {
    if a == [] {
      assert a + b == b;
    } else {
      assert (a + b)[1..] == a[1..] + b;
      EscapeConcat(a[1..], b);
    }
  }

  /** With the law above, this says what every string becomes. */
  lemma EscapeCharacter(c: char)
    ensures Escape([c]) == if c == '"' || c == '\\' then ['\\', c] else [c]
    ensures Escape([]) == []
  {
    assert [c][1..] == [];
  }

  lemma {:induction false} EscapePlain(s: string)
    requires Plain(s)
    ensures Escape(s) == s && Specials(s) == 0
  {
    if s != [] {
      EscapePlain(s[1..]);
    }
  }

  lemma {:induction false} EscapeLength(s: string)
    ensures |Escape(s)| == |s| + Specials(s)
  {
    if s != [] {
      EscapeLength(s[1..]);
    }
  }

  /** One plain stretch and the special character after it. */
  lemma EscapeStretch(s: string, p: nat, l: nat)
    requires p + l <= |s| && Plain(s[p..p + l])
    ensures Escape(s[..p + l]) == Escape(s[..p]) + s[p..p + l]
    ensures Specials(s[..p + l]) == Specials(s[..p])
    ensures p + l < |s| && Special(s[p + l]) ==>
      Escape(s[..p + l + 1]) == Escape(s[..p]) + s[p..p + l] + [BACKSLASH, s[p + l]] &&
      Specials(s[..p + l + 1]) == Specials(s[..p]) + 1
  {
    assert s[..p + l] == s[..p] + s[p..p + l];
    EscapeConcat(s[..p], s[p..p + l]);
    EscapePlain(s[p..p + l]);
    if p + l < |s| && Special(s[p + l]) {
      assert s[..p + l + 1] == s[..p + l] + [s[p + l]];
      EscapeConcat(s[..p + l], [s[p + l]]);
      assert Escape([s[p + l]]) == [BACKSLASH, s[p + l]];
    }
  }

  /** The length of the plain stretch at `p`. */
  method StrCSpn(s: string, p: nat) returns (l: nat)
    requires p <= |s|
    ensures p + l <= |s| && Plain(s[p..p + l])
    ensures p + l < |s| ==> Special(s[p + l])
  {
    l := 0;
    while p + l < |s| && !Special(s[p + l])
      invariant p + l <= |s| && forall i :: p <= i < p + l ==> !Special(s[i])
    {
      l := l + 1;
    }
  }

  /** The counting pass: bytes for the quoted text and its terminator. */
  method QuotedSize(s: string) returns (n: nat)
    ensures n == |s| + Specials(s) + 3
  {
    n := |s| + 2 + 1;
    var p := 0;
    var l;
    while true
      invariant p <= |s| && n == |s| + Specials(s[..p]) + 3
      decreases |s| - p
    {
      l := StrCSpn(s, p);
      EscapeStretch(s, p, l);
      p := p + l;
      if p == |s| {
        assert s[..p] == s;
        break;
      }
      n := n + 1;
      p := p + 1;
    }
  }

  /** Append text at the write position of a buffer. */
  method StrNCat(res: array<char>, n: nat, s: string) returns (m: nat)
    requires n + |s| <= res.Length
    modifies res
    ensures m == n + |s| && res[..m] == old(res[..n]) + s
  {
    forall i | 0 <= i < |s| {
      res[n + i] := s[i];
    }
    m := n + |s|;
  }

  /** Write the plain stretch at `p` and the escaped character after it, if there is one. */
  method FillStretch(res: array<char>, n: nat, s: string, p: nat) returns (m: nat, r: nat)
    requires p <= |s| && n <= res.Length == |s| + Specials(s) + 3 && res[..n] == [QUOTE] + Escape(s[..p])
    modifies res
    ensures p <= r <= |s| && (r == p ==> r == |s|) && m <= res.Length && res[..m] == [QUOTE] + Escape(s[..r])
  {
    var l := StrCSpn(s, p);
    EscapeStretch(s, p, l);
    Room(s, p + l);
    m := StrNCat(res, n, s[p..p + l]);
    r := p + l;
    Grown(Escape(s[..p]), s[p..p + l], []);
    if r < |s| {
      Grown(Escape(s[..p]), s[p..p + l], [BACKSLASH, s[r]]);
      m := StrNCat(res, m, [BACKSLASH, s[r]]);
      r := r + 1;
    }
  }

  lemma Grown(text: string, more: string, last: string)
    ensures [QUOTE] + text + more == [QUOTE] + (text + more)
    ensures [QUOTE] + (text + more) + last == [QUOTE] + (text + more + last)
  {
  }

  /** The filling pass writes the quoted text and its terminator into exactly the bytes counted. */
  method EscapeStringValue(s: string) returns (res: array<char>)
    ensures fresh(res) && res[..] == [QUOTE] + Escape(s) + [QUOTE, NUL]
  {
    var size := QuotedSize(s);
    res := new char[size];
    var n := StrNCat(res, 0, [QUOTE]);
    var p := 0;
    while p < |s|
      invariant p <= |s| && n <= size && res[..n] == [QUOTE] + Escape(s[..p])
    {
      n, p := FillStretch(res, n, s, p);
    }
    EscapeLength(s);
    assert s[..p] == s;
    n := StrNCat(res, n, [QUOTE, NUL]);
  }

  /** The text written so far, and the two characters to come, fit the counted size. */
  lemma Room(s: string, p: nat)
    requires p <= |s|
    ensures |Escape(s[..p])| <= |s| + Specials(s)
    ensures p < |s| && Special(s[p]) ==> |Escape(s[..p])| + 2 <= |s| + Specials(s)
  {
    assert s == s[..p] + s[p..];
    EscapeConcat(s[..p], s[p..]);
    EscapeLength(s);
    if p < |s| && Special(s[p]) {
      assert |Escape(s[p..])| >= 2;
    }
  }

  /** Plain text is read as it stands. */
  lemma {:induction false} UnescapePlain(plain: string, rest: string)
    requires Plain(plain)
    ensures Unescape(plain + rest) == Prepend(plain, Unescape(rest))
  {
    if plain == [] {
      assert plain + rest == rest;
      PrependNothing(Unescape(rest));
    } else {
      assert plain + rest == [plain[0]] + (plain[1..] + rest);
      UnescapeHead(plain[0], plain[1..] + rest);
      UnescapePlain(plain[1..], rest);
      PrependTwice([plain[0]], plain[1..], Unescape(rest));
      assert [plain[0]] + plain[1..] == plain;
    }
  }

  lemma PrependNothing(rest: Option<string>)
    ensures Prepend([], rest) == rest
  {
    if rest.Some? {
      assert [] + rest.value == rest.value;
    }
  }

  lemma PrependTwice(a: string, b: string, rest: Option<string>)
    ensures Prepend(a, Prepend(b, rest)) == Prepend(a + b, rest)
  {
    if rest.Some? {
      assert a + (b + rest.value) == a + b + rest.value;
    }
  }

  lemma {:induction false} UnescapeNulFree(t: string)
    requires NulFree(t) && Unescape(t).Some?
    ensures NulFree(Unescape(t).value)
  {
    if t[0] != QUOTE {
      UnescapeNulFree(if t[0] == BACKSLASH then t[2..] else t[1..]);
    }
  }

  /** The first special character of the text at `p`, or its terminator. */
  method StrPBrk(a: array<char>, p: nat, ghost z: nat) returns (q: nat)
    requires p <= z < a.Length && a[z] == NUL && NulFree(a[p..z])
    ensures p <= q <= z && Plain(a[p..q]) && (q == z <==> a[q] == NUL)
    ensures q < z ==> Special(a[q])
  {
    q := p;
    while a[q] != NUL && !Special(a[q])
      invariant p <= q <= z && forall i :: p <= i < q ==> !Special(a[i])
      decreases z - q
    {
      assert q != z;
      q := q + 1;
    }
  }

  /** Remove the character at `q` by moving the rest of the text, terminator included, down by one. */
  method Remove(a: array<char>, q: nat, ghost z: nat)
    requires q < z < a.Length && a[z] == NUL && NulFree(a[q..z])
    modifies a
    ensures a[..q] == old(a[..q]) && a[q..z] == old(a[q + 1..z + 1]) && a[z..] == old(a[z..])
  {
    var n := StrLen(a, q, z);
    forall i | q <= i < q + n {
      a[i] := a[i + 1];
    }
  }

  method StrLen(a: array<char>, p: nat, ghost z: nat) returns (n: nat)
    requires p <= z < a.Length && a[z] == NUL && NulFree(a[p..z])
    ensures p + n == z
  {
    n := 0;
    while a[p + n] != NUL
      invariant p + n <= z
      decreases z - n
    {
      assert p + n != z;
      n := n + 1;
    }
  }

  /**
   * The loading loop, in the buffer that holds the text after the opening quote. It never writes past
   * the terminator, accepts exactly the texts that have a closing quote, and leaves the value terminated.
   */
  method UnescapeInPlace(a: array<char>, p: nat, ghost z: nat) returns (ok: bool, end: nat)
    requires p <= z < a.Length && a[z] == NUL && NulFree(a[p..z])
    modifies a
    ensures a[..p] == old(a[..p]) && a[z..] == old(a[z..])
    ensures ok <==> Unescape(old(a[p..z])).Some?
    ensures ok ==> p <= end <= z && a[end] == NUL && NulFree(a[p..end])
    ensures ok ==> Unescape(old(a[p..z])) == Some(a[p..end])
  {
    ghost var t, y := a[p..z], z;
    end := p;
    PrependNothing(Unescape(t));
    assert a[p..end] == [];
    while true
      invariant p <= end <= y <= z && a[y] == NUL && NulFree(a[end..y])
      invariant a[..p] == old(a[..p]) && a[z..] == old(a[z..])
      invariant Unescape(t) == Prepend(a[p..end], Unescape(a[end..y]))
      decreases y - end
    {
      end := Skip(a, p, end, y, t);
      if a[end] == NUL {
        return false, end;
      }
      if a[end] == QUOTE {
        Closed(a[p..end], a[end..y], t);
        a[end] := NUL;
        UnescapeNulFree(t);
        return true, end;
      }
      y := Advance(a, p, end, y, t);
      end := end + 1;
    }
  }

  lemma Closed(done: string, rest: string, t: string)
    requires rest != [] && rest[0] == QUOTE && Unescape(t) == Prepend(done, Unescape(rest))
    ensures Unescape(t) == Some(done)
  {
    assert done + [] == done;
  }

  lemma SliceJoin(a: array<char>, i: nat, j: nat, k: nat)
    requires i <= j <= k <= a.Length
    ensures a[i..j] + a[j..k] == a[i..k]
  {
  }

  lemma Skipped(done: string, plain: string, rest: string, t: string)
    requires Plain(plain) && Unescape(t) == Prepend(done, Unescape(plain + rest))
    ensures Unescape(t) == Prepend(done + plain, Unescape(rest))
  {
    UnescapePlain(plain, rest);
    PrependTwice(done, plain, Unescape(rest));
  }

  /** Move to the next special character; the text skipped is part of the value. */
  method Skip(a: array<char>, p: nat, from: nat, ghost y: nat, ghost t: string) returns (q: nat)
    requires p <= from <= y < a.Length && a[y] == NUL && NulFree(a[from..y])
    requires Unescape(t) == Prepend(a[p..from], Unescape(a[from..y]))
    ensures from <= q <= y && (q == y <==> a[q] == NUL) && (q < y ==> Special(a[q]))
    ensures Unescape(t) == Prepend(a[p..q], Unescape(a[q..y]))
  {
    q := StrPBrk(a, from, y);
    SliceJoin(a, p, from, q);
    SliceJoin(a, from, q, y);
    Skipped(a[p..from], a[from..q], a[q..y], t);
  }

  /** Delete a backslash; the character after it is kept whatever it is. Returns the new terminator. */
  method StepOver(a: array<char>, p: nat, q: nat, ghost y: nat) returns (ghost x: nat)
    requires p <= q < y < a.Length && a[y] == NUL && NulFree(a[q..y])
    modifies a
    ensures a[..q] == old(a[..q]) && a[y..] == old(a[y..])
    ensures q < x <= y && a[x] == NUL && x - (q + 1) < y - q
    ensures q + 1 == y ==> x == y
    ensures q + 1 < y ==> a[p..q + 1] == old(a[p..q]) + [old(a[q..y])[1]] && a[q + 1..x] == old(a[q..y])[2..]
  {
    ghost var done, rest := a[p..q], a[q..y];
    Remove(a, q, y);
    assert a[p..q] == done;
    if |rest| == 1 {
      x := y;
    } else {
      x := y - 1;
      ghost var moved := a[q..y];
      Shifted(moved, rest);
      assert a[q + 1..x] == moved[1..|moved| - 1];
      assert a[p..q + 1] == done + [moved[0]];
      assert a[x] == moved[|moved| - 1];
    }
  }

  /** The loop's step at a backslash, with what it means for the value. */
  method Advance(a: array<char>, p: nat, q: nat, ghost y: nat, ghost t: string) returns (ghost x: nat)
    requires p <= q < y < a.Length && a[y] == NUL && NulFree(a[q..y]) && a[q] == BACKSLASH
    requires Unescape(t) == Prepend(a[p..q], Unescape(a[q..y]))
    modifies a
    ensures a[..q] == old(a[..q]) && a[y..] == old(a[y..])
    ensures q < x <= y && a[x] == NUL && NulFree(a[q + 1..x]) && x - (q + 1) < y - q
    ensures Unescape(t) == Prepend(a[p..q + 1], Unescape(a[q + 1..x]))
  {
    ghost var done, rest := a[p..q], a[q..y];
    x := StepOver(a, p, q, y);
    if |rest| == 1 {
      assert a[q + 1..x] == [];
      Dangling(done, rest, t, a[p..q + 1]);
    } else {
      Kept(done, rest, t);
    }
  }

  /** A backslash at the end of the text is followed by no closing quote. */
  lemma Dangling(done: string, rest: string, t: string, any: string)
    requires |rest| == 1 && rest[0] == BACKSLASH && Unescape(t) == Prepend(done, Unescape(rest))
    ensures Unescape(t) == Prepend(any, Unescape([]))
  {
    assert rest == [BACKSLASH];
  }

  lemma Shifted(moved: string, rest: string)
    requires |moved| == |rest| >= 2 && moved == rest[1..] + [NUL]
    ensures moved[0] == rest[1] && moved[1..|moved| - 1] == rest[2..] && moved[|moved| - 1] == NUL
  {
  }

  /** A backslash keeps the character after it. */
  lemma Kept(done: string, rest: string, t: string)
    requires |rest| >= 2 && rest[0] == BACKSLASH && Unescape(t) == Prepend(done, Unescape(rest))
    ensures Unescape(t) == Prepend(done + [rest[1]], Unescape(rest[2..]))
    ensures NulFree(rest) ==> NulFree(rest[2..])
  {
    assert rest == [BACKSLASH, rest[1]] + rest[2..];
    UnescapeHead(rest[1], rest[2..]);
    PrependTwice(done, [rest[1]], Unescape(rest[2..]));
  }

  lemma {:induction false} EscapeNulFree(s: string)
    requires NulFree(s)
    ensures NulFree(Escape(s))
  {
    if s != [] {
      EscapeNulFree(s[1..]);
    }
  }

  lemma QuotedText(s: string, text: string)
    requires NulFree(s) && text == Escape(s) + [QUOTE]
    ensures NulFree(text) && Unescape(text) == Some(s)
  {
    EscapeNulFree(s);
    EscapeThenUnescape(s, []);
    assert Escape(s) + [QUOTE] + [] == text;
  }

  /** A string saved into a buffer and loaded from the same buffer is the string, terminated. */
  method SaveThenLoad(s: string) returns (a: array<char>, end: nat)
    requires NulFree(s)
    ensures 1 <= end < a.Length && a[end] == NUL && a[1..end] == s
  {
    a := EscapeStringValue(s);
    ghost var z := a.Length - 1;
    assert a[..][1..z] == Escape(s) + [QUOTE];
    assert a[1..z] == a[..][1..z];
    assert a[z] == a[..][z] == NUL;
    QuotedText(s, a[1..z]);
    var ok;
    ok, end := UnescapeInPlace(a, 1, z);
  }
}
