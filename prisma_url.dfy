/**
 * The connection-string handling done before the database client is built:
 * a missing or empty `DATABASE_URL` is an error, and every
 * `sslmode=require`, `sslmode=prefer` or `sslmode=verify-ca` that ends at an
 * `&` or at the end of the string is rewritten to `sslmode=verify-full`
 * (a global regular-expression replace, scanned left to right).
 *
 * The scan is written once for any matcher (`Scan`), and the lemmas about it
 * assume only the properties of the matcher they use; `Rewrite` is the scan
 * with the matcher of the source's pattern (`MatchAt`), which is shown to
 * have those properties.
 */
module PrismaUrl {
  import opened Wrappers

  const Key: string := "sslmode="
  const Strict: string := "verify-full"
  const NotSet: string := "DATABASE_URL is not set"

  datatype Outcome = Url(url: string) | Thrown(message: string)

  predicate StartsWith(s: string, p: string) {
    |p| <= |s| && s[..|p|] == p
  }

  /** The match ends at `n`: the string ends there or continues with `&`. */
  predicate Terminated(s: string, n: nat) {
    |s| == n || (|s| > n && s[n] == '&')
  }

  /**
   * The length of the match `sslmode=` + weak mode starting at the head of
   * `s`, without its terminator; None when there is no match there. At most
   * one of the three modes can match, since they begin with different letters.
   */
  function MatchAt(s: string): (r: Option<nat>)
    ensures r.Some? ==> |s| >= 2 && s[0] == 's' && s[1] == 's' && Terminated(s, r.value)
  {
    if StartsWith(s, Key + "require") && Terminated(s, 15) then Some(15)
    else if StartsWith(s, Key + "prefer") && Terminated(s, 14) then Some(14)
    else if StartsWith(s, Key + "verify-ca") && Terminated(s, 17) then Some(17)
    else None
  }

  // ------------------------------------------------------------ the scan

  /** Reports the length of the match at the head of a string, if there is one. */
  type Matcher = string -> Option<nat>

  /** Every match starts with `ss` and ends where the string ends or an `&` follows. */
  ghost predicate Anchored(m: Matcher) {
    forall u :: m(u).Some? ==> |u| >= 2 && u[0] == 's' && u[1] == 's' && Terminated(u, m(u).value)
  }

  /**
   * `replace(pattern, "$1verify-full$3")` with global flag: at a match, the
   * key, the strict mode and the terminator are written and the scan resumes
   * after the terminator; elsewhere one character is copied.
   */
  function Scan(m: Matcher, s: string): string
    requires Anchored(m)
    decreases |s|
  {
    if s == [] then []
    else
      match m(s)
      case Some(n) => Key + Strict + (if n == |s| then [] else "&" + Scan(m, s[n + 1..]))
      case None => [s[0]] + Scan(m, s[1..])
  }

  /** No match starts anywhere in `s`. */
  predicate Unmatched(m: Matcher, s: string) {
    forall i :: 0 <= i < |s| ==> m(s[i..]).None?
  }

  lemma MatchAtAnchored()
    ensures Anchored(MatchAt)
  {
  }

  /** The source's rewrite: the scan with the source's pattern. */
  function Rewrite(s: string): string {
    MatchAtAnchored();
    Scan(MatchAt, s)
  }

  /** No weak `sslmode` starts anywhere in `s`. */
  predicate Clean(s: string) {
    Unmatched(MatchAt, s)
  }

  /** `createPrismaClient`'s use of `DATABASE_URL`: absent or empty throws; otherwise the rewritten string. */
  function DatabaseUrl(env: Option<string>): (r: Outcome)
    ensures r.Thrown? <==> env.None? || env.value == []
    ensures r.Thrown? ==> r.message == NotSet
    ensures r.Url? ==> r.url == Rewrite(env.value) && Clean(r.url)
  {
    if env.None? || env.value == [] then Thrown(NotSet)
    else
      RewriteIsClean(env.value);
      Url(Rewrite(env.value))
  }

  /** The three weak modes are matched up to the `&` or the end of the string. */
  lemma MatchExamples()
    ensures MatchAt(Key + "require") == Some(15)
    ensures MatchAt(Key + "prefer" + "&connect_timeout=10") == Some(14)
    ensures MatchAt(Key + "verify-ca" + "&") == Some(17)
  {
    KeyModeMatches(15, []);
    assert Key + "require" + [] == Key + "require";
    KeyModeMatches(14, "&connect_timeout=10");
    KeyModeMatches(17, "&");
  }

  /** The key and a weak mode, then nothing or an `&`, is a match of their length. */
  lemma KeyModeMatches(n: nat, rest: string)
    requires n in {14, 15, 17} && (rest == [] || rest[0] == '&')
    ensures MatchAt(Key + ModeOf(n) + rest) == Some(n)
  {
    var p := Key + ModeOf(n);
    var u := p + rest;
    assert |p| == n;
    assert u[..n] == p;
    ShapeMatches(u, n);
  }

  /** A longer word, another mode and the strict mode itself are not matched. */
  lemma NonMatchExamples()
    ensures MatchAt("sslmode=requirex").None?
    ensures MatchAt("sslmode=disable").None?
    ensures MatchAt("sslmode=verify-full").None?
  {
    assert "sslmode=requirex"[15] == 'x' && "sslmode=requirex"[8] == 'r';
    assert "sslmode=disable"[8] == 'd';
    assert "sslmode=verify-full"[8] == 'v' && "sslmode=verify-full"[15] == 'f';
  }

  // ------------------------------------------------- one step of the scan

  lemma DropDrop<T>(s: seq<T>, i: nat, j: nat)
    requires i + j <= |s|
    ensures s[i..][j..] == s[i + j..]
  {
  }

  /** Off a match, one character is copied and the scan moves on by one. */
  lemma ScanCopies(m: Matcher, s: string, i: nat)
    requires Anchored(m) && i < |s| && m(s[i..]).None?
    ensures Scan(m, s[i..]) == [s[i]] + Scan(m, s[i + 1..])
  {
    DropDrop(s, i, 1);
  }

  /** At a match, the replacement is written and the scan resumes after the terminator. */
  lemma ScanReplaces(m: Matcher, s: string, i: nat)
    requires Anchored(m) && i < |s| && m(s[i..]).Some?
    ensures var n := m(s[i..]).value;
      i + n <= |s| &&
      Scan(m, s[i..]) == Key + Strict + (if i + n == |s| then [] else "&" + Scan(m, s[i + n + 1..]))
  {
    var n := m(s[i..]).value;
    if i + n < |s| {
      DropDrop(s, i, n + 1);
    }
  }

  /** Copying `s[i]` in front of a copy of `s[i + 1..k]` copies `s[i..k]`. */
  lemma PrependOne<T>(s: seq<T>, i: nat, k: nat, x: seq<T>, y: seq<T>, rest: seq<T>)
    requires i < k <= |s| && x == [s[i]] + y && y == s[i + 1..k] + rest
    ensures x == s[i..k] + rest
  {
    assert s[i..k] == [s[i]] + s[i + 1..k];
  }

  /** From `i` on, characters before `k` that start no match are copied. */
  lemma {:induction false} ScanFrom(m: Matcher, s: string, i: nat, k: nat)
    requires Anchored(m) && i <= k <= |s|
    requires forall j :: i <= j < k ==> m(s[j..]).None?
    ensures Scan(m, s[i..]) == s[i..k] + Scan(m, s[k..])
    decreases k - i
  {
    if i < k {
      ScanCopies(m, s, i);
      ScanFrom(m, s, i + 1, k);
      PrependOne(s, i, k, Scan(m, s[i..]), Scan(m, s[i + 1..]), Scan(m, s[k..]));
    }
  }

  /** Characters before the first match are copied: the scan of `s` is its first `k` characters, then the scan of the rest. */
  lemma ScanSkips(m: Matcher, s: string, k: nat)
    requires Anchored(m) && k <= |s|
    requires forall j :: 0 <= j < k ==> m(s[j..]).None?
    ensures Scan(m, s) == s[..k] + Scan(m, s[k..])
  {
    ScanFrom(m, s, 0, k);
    assert s[0..] == s;
  }

  /** The first match is rewritten to the strict mode, keeping its `&`, and the scan goes on after it. */
  lemma ScanAtMatch(m: Matcher, s: string, k: nat)
    requires Anchored(m) && k < |s| && m(s[k..]).Some?
    requires forall j :: 0 <= j < k ==> m(s[j..]).None?
    ensures var n := m(s[k..]).value;
      Scan(m, s) == s[..k] + (Key + Strict + (if k + n == |s| then [] else "&" + Scan(m, s[k + n + 1..])))
  {
    ScanSkips(m, s, k);
    ScanReplaces(m, s, k);
  }

  /** A string with no match is left as it is. */
  lemma ScanUnmatched(m: Matcher, s: string)
    requires Anchored(m) && Unmatched(m, s)
    ensures Scan(m, s) == s
  {
    ScanFrom(m, s, 0, |s|);
    assert s[0..] == s[0..|s|] == s;
    assert s[|s|..] == [];
  }

  lemma CleanUnchanged(s: string)
    requires Clean(s)
    ensures Rewrite(s) == s
  {
    MatchAtAnchored();
    ScanUnmatched(MatchAt, s);
  }

  // ----------------------------------------------- what the scan leaves behind

  /** No two consecutive `s` characters. */
  predicate NoDoubleS(w: string) {
    forall i :: 0 <= i < |w| - 1 ==> !(w[i] == 's' && w[i + 1] == 's')
  }

  /** The scan of a string that starts with a match starts with `ss` and the 19-character replacement. */
  lemma ScanAtHead(m: Matcher, t: string)
    requires Anchored(m) && t != [] && m(t).Some?
    ensures var out := Scan(m, t); |out| >= 19 && out[0] == 's' && out[1] == 's'
  {
    var n := m(t).value;
    assert Scan(m, t) == Key + Strict + (if n == |t| then [] else "&" + Scan(m, t[n + 1..]));
  }

  /** Prefixes and equality of a string with a known first character. */
  lemma ConsPrefix(a: char, y: string, w: string)
    requires w != []
    ensures StartsWith([a] + y, w) <==> w[0] == a && StartsWith(y, w[1..])
    ensures [a] + y == w <==> w[0] == a && y == w[1..]
  {
    var x := [a] + y;
    if StartsWith(y, w[1..]) && w[0] == a {
      assert x[..|w|] == [a] + y[..|w| - 1];
    }
    if StartsWith(x, w) {
      assert y[..|w| - 1] == x[..|w|][1..];
    }
    if y == w[1..] && w[0] == a {
      assert w == [w[0]] + w[1..];
    }
  }

  /**
   * A scan result that begins with such a string came from a string that
   * begins with it too (and one equal to it from that very string): every
   * match is written back starting with `ss`.
   */
  lemma {:induction false} ScanKeepsPrefix(m: Matcher, t: string, w: string)
    requires Anchored(m) && NoDoubleS(w)
    ensures StartsWith(Scan(m, t), w) ==> StartsWith(t, w)
    ensures Scan(m, t) == w ==> t == w
    decreases |t|
  {
    if t != [] && w != [] {
      if m(t).Some? {
        ScanAtHead(m, t);
        assert |w| >= 2 ==> !(w[0] == 's' && w[1] == 's');
      } else {
        assert t[0..] == t;
        ScanCopies(m, t, 0);
        ScanKeepsPrefix(m, t[1..], w[1..]);
        ConsPrefix(t[0], Scan(m, t[1..]), w);
        ConsPrefix(t[0], t[1..], w);
        assert t == [t[0]] + t[1..];
      }
    }
  }

  /** The characters after the leading `s` of a match of length `n`, with its `&` if there is one. */
  function Window(u: string, n: nat): string
    requires 1 <= n <= |u|
  {
    if |u| == n then u[1..] else u[1..n + 1]
  }

  /** After its leading `s`, no match contains `ss`. */
  ghost predicate WindowsNoDoubleS(m: Matcher) {
    forall u :: m(u).Some? && 1 <= m(u).value <= |u| ==> NoDoubleS(Window(u, m(u).value))
  }

  /** `a` and `b` agree on the first `n` characters and on what follows them. */
  predicate SameWindow(a: string, b: string, n: nat) {
    (|a| == n && b == a) || (|a| > n && |b| > n && b[..n + 1] == a[..n + 1])
  }

  /** Whether a match is present depends only on the match and its terminator. */
  ghost predicate DecidedByWindow(m: Matcher) {
    forall a, b :: m(a).Some? && SameWindow(a, b, m(a).value) ==> m(b).Some?
  }

  /** The replacement `sslmode=verify-full` starts no match, at its head or inside it. */
  ghost predicate SparesReplacement(m: Matcher) {
    forall tail: string, i: nat :: i < 19 ==> m((Key + Strict + tail)[i..]).None?
  }

  /** A match's length is at least one, and its window has no `ss`. */
  lemma MatchWindow(m: Matcher, x: string)
    requires Anchored(m) && WindowsNoDoubleS(m) && m(x).Some?
    ensures 1 <= m(x).value <= |x| && NoDoubleS(Window(x, m(x).value))
  {
  }

  /**
   * `s` agrees with its first character followed by `y` on the window of
   * length `n` when the rest of `s` starts with (or is) whatever that window
   * does.
   */
  lemma ConsSameWindow(s: string, y: string, n: nat)
    requires s != [] && 1 <= n <= |y| + 1
    requires var w := Window([s[0]] + y, n); (StartsWith(y, w) ==> StartsWith(s[1..], w)) && (y == w ==> s[1..] == w)
    ensures SameWindow([s[0]] + y, s, n)
  {
    var x := [s[0]] + y;
    assert x[1..] == y;
    assert s == [s[0]] + s[1..];
    if |x| > n {
      assert Window(x, n) == y[..n];
      assert s[..n + 1] == [s[0]] + s[1..][..n];
      assert x[..n + 1] == [s[0]] + y[..n];
    }
  }

  /**
   * A match at the head of `s[0]` followed by `y` is a match at the head of
   * `s` when `y` starts with (or is) a string without `ss` only if the rest
   * of `s` does.
   */
  lemma FrontMatch(m: Matcher, s: string, y: string)
    requires Anchored(m) && WindowsNoDoubleS(m) && DecidedByWindow(m) && s != []
    requires forall w :: NoDoubleS(w) ==> (StartsWith(y, w) ==> StartsWith(s[1..], w)) && (y == w ==> s[1..] == w)
    ensures m([s[0]] + y).Some? ==> m(s).Some?
  {
    var out := [s[0]] + y;
    if m(out).Some? {
      var n := m(out).value;
      MatchWindow(m, out);
      ConsSameWindow(s, y, n);
    }
  }

  /** A match at the head of a scan result whose first character was copied was already a match of the source. */
  lemma FrontMatchFromSource(m: Matcher, s: string)
    requires Anchored(m) && WindowsNoDoubleS(m) && DecidedByWindow(m)
    requires s != []
    ensures m([s[0]] + Scan(m, s[1..])).Some? ==> m(s).Some?
  {
    forall w | NoDoubleS(w)
      ensures (StartsWith(Scan(m, s[1..]), w) ==> StartsWith(s[1..], w)) && (Scan(m, s[1..]) == w ==> s[1..] == w)
    {
      ScanKeepsPrefix(m, s[1..], w);
    }
    FrontMatch(m, s, Scan(m, s[1..]));
  }

  /** Dropping at least all of `p` from `p + q` drops the rest from `q`. */
  lemma DropPast<T>(p: seq<T>, q: seq<T>, i: nat)
    requires |p| <= i <= |p + q|
    ensures (p + q)[i..] == q[i - |p|..]
  {
  }

  /** A replacement followed by nothing or by `&` and an unmatched string is unmatched. */
  lemma ReplacementUnmatched(m: Matcher, tail: string)
    requires Anchored(m) && SparesReplacement(m)
    requires tail == [] || (tail[0] == '&' && Unmatched(m, tail[1..]))
    ensures Unmatched(m, Key + Strict + tail)
  {
    var out := Key + Strict + tail;
    assert |Key + Strict| == 19;
    forall i | 0 <= i < |out|
      ensures m(out[i..]).None?
    {
      if i < 19 {
        assert m((Key + Strict + tail)[i..]).None?;
      } else {
        DropPast(Key + Strict, tail, i);
        if i == 19 {
          assert out[i..][0] == '&';
        } else {
          DropPast([tail[0]], tail[1..], i - 19);
          assert tail == [tail[0]] + tail[1..];
        }
      }
    }
  }

  /** A character that starts no match, in front of an unmatched string, leaves it unmatched. */
  lemma ConsUnmatched(m: Matcher, a: char, y: string)
    requires m([a] + y).None? && Unmatched(m, y)
    ensures Unmatched(m, [a] + y)
  {
    var x := [a] + y;
    forall i | 0 <= i < |x|
      ensures m(x[i..]).None?
    {
      if i == 0 {
        assert x[0..] == x;
      } else {
        DropPast([a], y, i);
      }
    }
  }

  /** No match survives the scan. */
  lemma {:induction false} ScanIsUnmatched(m: Matcher, s: string)
    requires Anchored(m) && WindowsNoDoubleS(m) && DecidedByWindow(m) && SparesReplacement(m)
    ensures Unmatched(m, Scan(m, s))
    decreases |s|
  {
    if s != [] {
      assert s[0..] == s;
      if m(s).Some? {
        var n := m(s).value;
        ScanReplaces(m, s, 0);
        if n < |s| {
          ScanIsUnmatched(m, s[n + 1..]);
          var r := Scan(m, s[n + 1..]);
          assert ("&" + r)[1..] == r;
          ReplacementUnmatched(m, "&" + r);
        } else {
          ReplacementUnmatched(m, []);
        }
      } else {
        ScanCopies(m, s, 0);
        ScanIsUnmatched(m, s[1..]);
        FrontMatchFromSource(m, s);
        ConsUnmatched(m, s[0], Scan(m, s[1..]));
      }
    }
  }

  // --------------------------------------- the source's pattern has these properties

  /** The weak mode a match of length `n` names. */
  function ModeOf(n: nat): string {
    if n == 15 then "require" else if n == 14 then "prefer" else "verify-ca"
  }

  /** A match is the key and one of the three modes, ended by the end of the string or an `&`. */
  lemma MatchShape(u: string)
    requires MatchAt(u).Some?
    ensures var n := MatchAt(u).value;
      n in {14, 15, 17} && n <= |u| && u[..n] == Key + ModeOf(n) && Terminated(u, n)
  {
  }

  /** A string of that shape is matched, with that length. */
  lemma ShapeMatches(u: string, n: nat)
    requires n in {14, 15, 17} && n <= |u| && u[..n] == Key + ModeOf(n) && Terminated(u, n)
    ensures MatchAt(u) == Some(n)
  {
    assert u[8] == (Key + ModeOf(n))[8];
  }

  /** The window past the head of a string that starts with `p` of length `n`. */
  lemma WindowAfter(u: string, n: nat, p: string)
    requires 2 <= n <= |u| && |p| == n && u[..n] == p && Terminated(u, n)
    ensures Window(u, n)[1..] == p[2..] + (if |u| == n then [] else "&")
  {
    assert u[2..n] == u[..n][2..];
    if |u| > n {
      assert u[2..n + 1] == u[2..n] + [u[n]];
    }
  }

  /** A string with no `s` after its first character has no `ss`. */
  lemma NoSAfterHead(w: string)
    requires w != [] && 's' !in w[1..]
    ensures NoDoubleS(w)
  {
    forall i | 0 <= i < |w| - 1
      ensures !(w[i] == 's' && w[i + 1] == 's')
    {
      assert w[i + 1] == w[1..][i];
    }
  }

  /** The text after the leading `s` of a match: `slmode=`, the mode, and the `&` if there is one. */
  lemma MatchTail(u: string)
    requires MatchAt(u).Some?
    ensures NoDoubleS(Window(u, MatchAt(u).value))
  {
    var n := MatchAt(u).value;
    MatchShape(u);
    var p := Key + ModeOf(n);
    WindowAfter(u, n, p);
    assert 's' !in p[2..] + "&" && 's' !in p[2..] + [];
    NoSAfterHead(Window(u, n));
  }

  /** `a` and `b` that agree on a window agree on the match and on its terminator. */
  lemma SameWindowAgrees(a: string, b: string, n: nat)
    requires SameWindow(a, b, n) && n <= |a| && Terminated(a, n)
    ensures n <= |b| && b[..n] == a[..n] && Terminated(b, n)
  {
    if |a| > n {
      assert b[..n] == b[..n + 1][..n];
      assert a[..n] == a[..n + 1][..n];
      assert b[n] == b[..n + 1][n];
    }
  }

  /** Whether a match of length `n` starts at the head depends only on the first `n + 1` characters. */
  lemma MatchOfSamePrefix(a: string, b: string)
    requires MatchAt(a).Some? && SameWindow(a, b, MatchAt(a).value)
    ensures MatchAt(b) == MatchAt(a)
  {
    var n := MatchAt(a).value;
    MatchShape(a);
    SameWindowAgrees(a, b, n);
    ShapeMatches(b, n);
  }

  /** The rewritten key and strict mode start no match, and neither does any of their later characters. */
  lemma StrictStartsNoMatch(tail: string, i: nat)
    requires i < 19
    ensures MatchAt((Key + Strict + tail)[i..]).None?
  {
    var out := Key + Strict + tail;
    if i == 0 {
      assert out[8] == 'v' && out[15] == 'f';
    } else if i == 1 {
      assert out[i..][1] == 'l';
    } else {
      assert out[i..][0] == out[i] != 's';
    }
  }

  /** No weak mode survives: the rewrite is clean. */
  lemma RewriteIsClean(s: string)
    ensures Clean(Rewrite(s))
  {
    MatchAtAnchored();
    forall u | MatchAt(u).Some? && 1 <= MatchAt(u).value <= |u|
      ensures NoDoubleS(Window(u, MatchAt(u).value))
    {
      MatchTail(u);
    }
    forall a, b | MatchAt(a).Some? && SameWindow(a, b, MatchAt(a).value)
      ensures MatchAt(b).Some?
    {
      MatchOfSamePrefix(a, b);
    }
    forall tail: string, i: nat | i < 19
      ensures MatchAt((Key + Strict + tail)[i..]).None?
    {
      StrictStartsNoMatch(tail, i);
    }
    ScanIsUnmatched(MatchAt, s);
  }

  /** Rewriting twice is rewriting once. */
  lemma RewriteIdempotent(s: string)
    ensures Rewrite(Rewrite(s)) == Rewrite(s)
  {
    RewriteIsClean(s);
    CleanUnchanged(Rewrite(s));
  }
}
