/**
 * The userdata merge (`read_userdata`) and rendering (`show_userdata`) of
 * client/snapper.cc. Userdata is a map from key to value; a delta is a
 * comma-separated list of `key=value` tokens applied left to right.
 */
module Userdata {
  import opened Common

  type Userdata = map<string, string>

  // ---------------------------------------------------------------------------
  // Splitting on commas (boost::split with is_any_of(",") and token_compress_on)
  // ---------------------------------------------------------------------------

  /** Drops the run of commas at the front of `s`. */
  function SkipCommas(s: string): (r: string)
    ensures |r| <= |s|
    ensures |s| > 0 && s[0] == ',' ==> |r| < |s|
    ensures r == [] || r[0] != ','
  {
    if |s| > 0 && s[0] == ',' then SkipCommas(s[1..]) else s
  }

  /**
   * The tokens of `s`: every maximal run of commas is one separator, so
   * "a,,b" gives ["a", "b"], while a leading or trailing comma leaves an
   * empty token and "" gives [""].
   */
  function SplitOnCommas(s: string): (r: seq<string>)
    ensures |r| >= 1
    ensures forall i :: 0 <= i < |r| ==> ',' !in r[i]
    decreases |s|
  {
    if |s| == 0 then [""]
    else if s[0] == ',' then [""] + SplitOnCommas(SkipCommas(s))
    else
      var r := SplitOnCommas(s[1..]);
      [[s[0]] + r[0]] + r[1..]
  }

  /**
   * A run of commas is one separator however long it is: doubling a comma
   * anywhere leaves the tokens unchanged ("a=1,,b=2" splits like "a=1,b=2").
   */
  lemma {:induction false} SplitCompress(a: string, b: string)
    ensures SplitOnCommas(a + ",," + b) == SplitOnCommas(a + "," + b)
    decreases |a|
  {
    var x := a + ",," + b;
    var y := a + "," + b;
    if a == [] {
      assert x == ",," + b && y == "," + b;
      assert x[1..] == y;
      assert SkipCommas(x) == SkipCommas(y);
    } else {
      var x1 := a[1..] + ",," + b;
      var y1 := a[1..] + "," + b;
      assert x[1..] == x1 && y[1..] == y1;
      assert x[0] == a[0] && y[0] == a[0];
      SplitCompress(a[1..], b);
      if a[0] == ',' {
        assert SkipCommas(x) == SkipCommas(x1);
        assert SkipCommas(y) == SkipCommas(y1);
        if a[1..] == [] || a[1..][0] == ',' {
          assert x1[0] == ',' && y1[0] == ',';
          assert SplitOnCommas(x1) == [""] + SplitOnCommas(SkipCommas(x1));
          assert SplitOnCommas(y1) == [""] + SplitOnCommas(SkipCommas(y1));
        } else {
          assert x1[0] == a[1..][0] && y1[0] == a[1..][0];
          assert SkipCommas(x1) == x1 && SkipCommas(y1) == y1;
        }
      }
    }
  }

  /** Tokens glued back together with single commas. */
  function JoinWithCommas(ts: seq<string>): string
    requires |ts| >= 1
  {
    if |ts| == 1 then ts[0] else ts[0] + "," + JoinWithCommas(ts[1..])
  }

  /** Prefixing comma-free text to `s` extends its first token only. */
  lemma {:induction false} SplitPrefix(c: string, s: string)
    requires ',' !in c
    ensures SplitOnCommas(c + s) == [c + SplitOnCommas(s)[0]] + SplitOnCommas(s)[1..]
  {
    if |c| > 0 {
      assert (c + s)[1..] == c[1..] + s;
      assert c[0] != ',';
      SplitPrefix(c[1..], s);
      assert [c[0]] + (c[1..] + SplitOnCommas(s)[0]) == c + SplitOnCommas(s)[0];
    } else {
      assert c + s == s;
      var r := SplitOnCommas(s);
      assert r == [r[0]] + r[1..];
      assert c + r[0] == r[0];
    }
  }

  /** Comma-free text is a single token. */
  lemma SplitCommaFree(c: string)
    requires ',' !in c
    ensures SplitOnCommas(c) == [c]
  {
    SplitPrefix(c, "");
    assert c + "" == c;
  }

  /** Splitting `a,b` yields `a` and then the tokens of `b`, when `a` is comma-free and `b` does not start with one. */
  lemma SplitCons(a: string, b: string)
    requires ',' !in a
    requires b == [] || b[0] != ','
    ensures SplitOnCommas(a + "," + b) == [a] + SplitOnCommas(b)
  {
    var cb := "," + b;
    assert SkipCommas(cb) == b by {
      assert cb[1..] == b;
    }
    assert SplitOnCommas(cb) == [""] + SplitOnCommas(b);
    assert a + "," + b == a + cb;
    SplitPrefix(a, cb);
    assert a + "" == a;
  }

  /**
   * Split and join are inverse on tokens that are comma-free and, apart
   * from the first and the last, non-empty (an empty inner token would be
   * swallowed by the comma-run compression).
   */
  lemma {:induction false} SplitJoin(ts: seq<string>)
    requires |ts| >= 1
    requires forall i :: 0 <= i < |ts| ==> ',' !in ts[i]
    requires forall i :: 0 < i < |ts| - 1 ==> ts[i] != []
    ensures SplitOnCommas(JoinWithCommas(ts)) == ts
  {
    if |ts| == 1 {
      SplitCommaFree(ts[0]);
    } else {
      var b := JoinWithCommas(ts[1..]);
      if |ts| > 2 {
        assert ts[1] != [];
        assert b[0] == ts[1][0];
      } else {
        assert b == ts[1];
        if b != [] {
          assert b[0] in ts[1];
        }
      }
      SplitCons(ts[0], b);
      SplitJoin(ts[1..]);
      assert ts == [ts[0]] + ts[1..];
    }
  }

  // ---------------------------------------------------------------------------
  // Trimming (boost::trim_copy in the classic "C" locale)
  // ---------------------------------------------------------------------------

  /** `isspace` of the "C" locale: blank, tab, newline, vertical tab, form feed, carriage return. */
  predicate IsSpace(c: char) {
    c == ' ' || '\t' <= c <= '\r'
  }

  /** No white space at either end. */
  predicate Trimmed(s: string) {
    s == [] || (!IsSpace(s[0]) && !IsSpace(s[|s| - 1]))
  }

  function TrimLeft(s: string): (r: string)
    ensures |r| <= |s| && r == s[|s| - |r|..]
    ensures forall k :: 0 <= k < |s| - |r| ==> IsSpace(s[k])
    ensures r == [] || !IsSpace(r[0])
  {
    if |s| > 0 && IsSpace(s[0]) then TrimLeft(s[1..]) else s
  }

  function TrimRight(s: string): (r: string)
    ensures |r| <= |s| && r == s[..|r|]
    ensures forall k :: |r| <= k < |s| ==> IsSpace(s[k])
    ensures r == [] || !IsSpace(r[|r| - 1])
  {
    if |s| > 0 && IsSpace(s[|s| - 1]) then TrimRight(s[..|s| - 1]) else s
  }

  /** `boost::trim_copy`: `s` without its leading and trailing white space. */
  function Trim(s: string): (r: string)
    ensures Trimmed(r)
    ensures |r| <= |s|
    ensures Trimmed(s) ==> r == s
    ensures (forall k :: 0 <= k < |s| ==> IsSpace(s[k])) <==> r == []
  {
    var l := TrimLeft(s);
    var r := TrimRight(l);
    assert r != [] ==> !IsSpace(r[0]) by {
      if r != [] { assert r[0] == l[0]; }
    }
    assert Trimmed(s) ==> r == s by {
      if Trimmed(s) && s != [] {
        assert l == s;
      }
    }
    assert r != [] ==> !IsSpace(s[|s| - |l|]) by {
      if r != [] { assert s[|s| - |l|] == l[0]; }
    }
    r
  }

  /** Dropping white space from the front of `s` (giving `l`) and then from the back of `l` (giving `r`) leaves a slice of `s`. */
  lemma SliceBetweenSpaces(s: string, l: string, r: string)
    requires |l| <= |s| && l == s[|s| - |l|..]
    requires |r| <= |l| && r == l[..|r|]
    requires forall k :: 0 <= k < |s| - |l| ==> IsSpace(s[k])
    requires forall k :: |r| <= k < |l| ==> IsSpace(l[k])
    ensures exists i, j :: 0 <= i <= j <= |s| && r == s[i..j]
                           && (forall k :: 0 <= k < i ==> IsSpace(s[k]))
                           && (forall k :: j <= k < |s| ==> IsSpace(s[k]))
  {
    var i := |s| - |l|;
    var j := i + |r|;
    assert r == s[i..j];
    forall k | j <= k < |s|
      ensures IsSpace(s[k])
    {
      assert s[k] == l[k - i];
    }
  }

  /**
   * What trimming removes: the result is a slice of `s`, and everything
   * outside the slice is white space.
   */
  lemma TrimSlice(s: string)
    ensures exists i, j :: 0 <= i <= j <= |s| && Trim(s) == s[i..j]
                           && (forall k :: 0 <= k < i ==> IsSpace(s[k]))
                           && (forall k :: j <= k < |s| ==> IsSpace(s[k]))
  {
    var l := TrimLeft(s);
    SliceBetweenSpaces(s, l, TrimRight(l));
  }

  /** A leading blank never survives trimming. */
  lemma TrimBlankPrefix(s: string)
    ensures Trim(" " + s) == Trim(s)
  {
    assert (" " + s)[1..] == s;
  }

  // ---------------------------------------------------------------------------
  // Parsing the delta
  // ---------------------------------------------------------------------------

  /**
   * One `key=value` token, split at its FIRST `=` (so the value may itself
   * hold `=`), both halves trimmed. A token without `=` or with an empty
   * key is invalid; an empty value is kept and later means "erase".
   */
  function ParseToken(t: string): (r: Result<(string, string)>)
    ensures '=' !in t ==> r == Failure(InvalidUserdata)
    ensures r.Failure? ==> r.error == InvalidUserdata
    ensures r.Success? ==> r.value.0 != [] && '=' !in r.value.0
    ensures r.Success? ==> Trimmed(r.value.0) && Trimmed(r.value.1)
    ensures r.Success? ==>
              exists p :: 0 <= p < |t| && t[p] == '=' && '=' !in t[..p]
                          && r.value == (Trim(t[..p]), Trim(t[p + 1..]))
  {
    match IndexOf(t, '=')
    case None => Failure(InvalidUserdata)
    case Some(p) =>
      var key := Trim(t[..p]);
      var value := Trim(t[p + 1..]);
      assert '=' !in key by {
        assert key == t[..p][|t[..p]| - |TrimLeft(t[..p])|..][..|key|];
      }
      if key == [] then Failure(InvalidUserdata) else Success((key, value))
  }

  /** The key of a token: the trimmed text before its first `=` (empty when there is no `=`). */
  function TokenKey(t: string): (k: string)
    ensures '=' in t ==> exists p :: 0 <= p < |t| && t[p] == '=' && '=' !in t[..p] && k == Trim(t[..p])
  {
    match IndexOf(t, '=')
    case None => []
    case Some(p) => Trim(t[..p])
  }

  /** A token holds a `=` and its trimmed key is not empty. */
  predicate WellFormedToken(t: string) {
    '=' in t && TokenKey(t) != []
  }

  /** A token is accepted exactly when it is well formed. */
  lemma ParseTokenAccepts(t: string)
    ensures ParseToken(t).Success? <==> WellFormedToken(t)
  {
  }

  /** A leading blank moves the first `=` one place to the right. */
  lemma IndexOfBlankPrefix(t: string)
    ensures IndexOf(t, '=').None? ==> IndexOf(" " + t, '=').None?
    ensures IndexOf(t, '=').Some? ==> IndexOf(" " + t, '=') == Some(IndexOf(t, '=').value + 1)
  {
    assert (" " + t)[1..] == t;
  }

  /** A leading blank on a token changes nothing about how it parses. */
  lemma ParseTokenBlankPrefix(t: string)
    ensures ParseToken(" " + t) == ParseToken(t)
  {
    var u := " " + t;
    IndexOfBlankPrefix(t);
    if IndexOf(t, '=').Some? {
      var p := IndexOf(t, '=').value;
      assert u[..p + 1] == " " + t[..p];
      assert u[p + 2..] == t[p + 1..];
      TrimBlankPrefix(t[..p]);
    }
  }

  /** All the values, in order, or the first failure. */
  function Collect<T>(rs: seq<Result<T>>): (r: Result<seq<T>>)
    ensures r.Failure? ==> exists i :: 0 <= i < |rs| && rs[i] == Failure(r.error)
    ensures r.Success? ==> |r.value| == |rs|
    ensures r.Success? ==> forall i :: 0 <= i < |rs| ==> rs[i] == Success(r.value[i])
  {
    if |rs| == 0 then Success([])
    else if rs[0].Failure? then Failure(rs[0].error)
    else
      var tail := Collect(rs[1..]);
      if tail.Failure? then
        assert exists i :: 0 <= i < |rs| && rs[i] == Failure(tail.error) by {
          var j :| 0 <= j < |rs| - 1 && rs[1..][j] == Failure(tail.error);
          assert rs[j + 1] == rs[1..][j];
        }
        Failure(tail.error)
      else
        var r := [rs[0].value] + tail.value;
        assert forall i :: 1 <= i < |rs| ==> rs[i] == rs[1..][i - 1] && r[i] == tail.value[i - 1];
        Success(r)
  }

  /** Every token of the delta, in order; the first invalid one fails the whole delta. */
  function ParseDelta(ts: seq<string>): (r: Result<seq<(string, string)>>)
    ensures r.Failure? ==> r.error == InvalidUserdata
    ensures r.Failure? ==> exists i :: 0 <= i < |ts| && ParseToken(ts[i]).Failure?
    ensures r.Success? ==> |r.value| == |ts|
    ensures r.Success? ==> forall i :: 0 <= i < |ts| ==> ParseToken(ts[i]) == Success(r.value[i])
  {
    Collect(seq(|ts|, i requires 0 <= i < |ts| => ParseToken(ts[i])))
  }

  // ---------------------------------------------------------------------------
  // Applying the delta
  // ---------------------------------------------------------------------------

  /** One token: an empty value erases the key (absent or not), any other value overwrites. */
  function Put(m: Userdata, key: string, value: string): (r: Userdata)
    ensures value == [] ==> key !in r
    ensures value != [] ==> key in r && r[key] == value
    ensures forall k :: k != key ==> (k in r <==> k in m)
    ensures forall k :: k != key && k in m ==> r[k] == m[k]
  {
    if value == [] then m - {key} else m[key := value]
  }

  /** The tokens applied left to right, starting from `m`. */
  function Apply(m: Userdata, delta: seq<(string, string)>): Userdata
    decreases |delta|
  {
    if |delta| == 0 then m else Apply(Put(m, delta[0].0, delta[0].1), delta[1..])
  }

  /** A key that no token mentions keeps its presence and its prior value. */
  lemma {:induction false} ApplyUnmentioned(m: Userdata, delta: seq<(string, string)>, k: string)
    requires forall i :: 0 <= i < |delta| ==> delta[i].0 != k
    ensures k in Apply(m, delta) <==> k in m
    ensures k in m ==> Apply(m, delta)[k] == m[k]
    decreases |delta|
  {
    if |delta| > 0 {
      ApplyUnmentioned(Put(m, delta[0].0, delta[0].1), delta[1..], k);
    }
  }

  /** The last token that mentions a key decides it: erased if its value is empty, set to it otherwise. */
  lemma {:induction false} ApplyLastWins(m: Userdata, delta: seq<(string, string)>, k: string, i: nat)
    requires i < |delta| && delta[i].0 == k
    requires forall j :: i < j < |delta| ==> delta[j].0 != k
    ensures delta[i].1 == [] ==> k !in Apply(m, delta)
    ensures delta[i].1 != [] ==> k in Apply(m, delta) && Apply(m, delta)[k] == delta[i].1
    decreases |delta|
  {
    var m' := Put(m, delta[0].0, delta[0].1);
    if i == 0 {
      ApplyUnmentioned(m', delta[1..], k);
    } else {
      ApplyLastWins(m', delta[1..], k, i - 1);
    }
  }

  /** Keys and values are all non-empty, as the snapshot service stores them. */
  predicate NonEmptyEntries(m: Userdata) {
    forall k :: k in m ==> k != [] && m[k] != []
  }

  /** Applying parsed tokens (non-empty keys) keeps every key and value non-empty. */
  lemma {:induction false} ApplyKeepsNonEmpty(m: Userdata, delta: seq<(string, string)>)
    requires NonEmptyEntries(m)
    requires forall i :: 0 <= i < |delta| ==> delta[i].0 != []
    ensures NonEmptyEntries(Apply(m, delta))
    decreases |delta|
  {
    if |delta| > 0 {
      ApplyKeepsNonEmpty(Put(m, delta[0].0, delta[0].1), delta[1..]);
    }
  }

  /** Every comma-separated token of `s` has a `=` and a non-empty trimmed key. */
  predicate ValidDelta(s: string) {
    forall i :: 0 <= i < |SplitOnCommas(s)| ==> ParseToken(SplitOnCommas(s)[i]).Success?
  }

  /** The tokens of a delta string, parsed: one `(key, value)` pair per comma-separated token. */
  function Delta(s: string): Result<seq<(string, string)>> {
    ParseDelta(SplitOnCommas(s))
  }

  /**
   * `read_userdata(s, old)`: fails when any token lacks `=` or has an empty
   * trimmed key; otherwise the tokens are applied to a copy of `old`.
   */
  function ReadUserdata(s: string, prior: Userdata): (r: Result<Userdata>)
    ensures r.Success? <==> ValidDelta(s)
    ensures r.Success? <==> Delta(s).Success?
    ensures r.Failure? ==> r.error == InvalidUserdata
    ensures r.Success? && NonEmptyEntries(prior) ==> NonEmptyEntries(r.value)
  {
    var ts := SplitOnCommas(s);
    var d := ParseDelta(ts);
    if d.Failure? then Failure(InvalidUserdata)
    else
      var delta := d.value;
      assert NonEmptyEntries(prior) ==> NonEmptyEntries(Apply(prior, delta)) by {
        if NonEmptyEntries(prior) {
          forall i | 0 <= i < |delta| ensures delta[i].0 != [] {
            assert ParseToken(ts[i]) == Success(delta[i]);
          }
          ApplyKeepsNonEmpty(prior, delta);
        }
      }
      Success(Apply(prior, delta))
  }

  /** A delta is readable exactly when every comma-separated token is well formed. */
  lemma ValidDeltaAccepts(s: string)
    ensures ValidDelta(s) <==> forall i :: 0 <= i < |SplitOnCommas(s)| ==> WellFormedToken(SplitOnCommas(s)[i])
  {
    var ts := SplitOnCommas(s);
    if ValidDelta(s) {
      forall i | 0 <= i < |ts|
        ensures WellFormedToken(ts[i])
      {
        assert ParseToken(ts[i]).Success?;
        ParseTokenAccepts(ts[i]);
      }
    } else {
      var i :| 0 <= i < |ts| && !ParseToken(ts[i]).Success?;
      ParseTokenAccepts(ts[i]);
      assert !WellFormedToken(SplitOnCommas(s)[i]);
    }
  }

  /**
   * "Nothing else changes": a key that no token of `s` names keeps its old
   * presence and value.
   */
  lemma ReadUserdataUnmentioned(s: string, prior: Userdata, k: string)
    requires Delta(s).Success?
    requires forall i :: 0 <= i < |Delta(s).value| ==> Delta(s).value[i].0 != k
    ensures ReadUserdata(s, prior).Success?
    ensures k in ReadUserdata(s, prior).value <==> k in prior
    ensures k in prior ==> ReadUserdata(s, prior).value[k] == prior[k]
  {
    ApplyUnmentioned(prior, Delta(s).value, k);
  }

  /**
   * "Last wins": the last token of `s` naming a key decides it, whatever the
   * old map and earlier tokens said — erased when its value is empty, set
   * to that value otherwise.
   */
  lemma ReadUserdataLastWins(s: string, prior: Userdata, i: nat)
    requires Delta(s).Success? && i < |Delta(s).value|
    requires forall j :: i < j < |Delta(s).value| ==> Delta(s).value[j].0 != Delta(s).value[i].0
    ensures ReadUserdata(s, prior).Success?
    ensures var (k, v) := Delta(s).value[i];
            (v == [] ==> k !in ReadUserdata(s, prior).value) &&
            (v != [] ==> k in ReadUserdata(s, prior).value && ReadUserdata(s, prior).value[k] == v)
  {
    var delta := Delta(s).value;
    ApplyLastWins(prior, delta, delta[i].0, i);
  }

  // ---------------------------------------------------------------------------
  // Rendering (show_userdata)
  // ---------------------------------------------------------------------------

  /** Strict lexicographic order of `std::string` (byte order of UTF-8 is code-point order). */
  predicate Below(a: string, b: string) {
    |b| > 0 && (|a| == 0 || a[0] < b[0] || (a[0] == b[0] && Below(a[1..], b[1..])))
  }

  lemma {:induction false} BelowIrreflexive(a: string)
    ensures !Below(a, a)
  {
    if |a| > 0 {
      BelowIrreflexive(a[1..]);
    }
  }

  lemma {:induction false} BelowTransitive(a: string, b: string, c: string)
    requires Below(a, b) && Below(b, c)
    ensures Below(a, c)
  {
    if |a| > 0 && a[0] == b[0] && b[0] == c[0] {
      BelowTransitive(a[1..], b[1..], c[1..]);
    }
  }

  lemma {:induction false} BelowTotal(a: string, b: string)
    requires a != b
    ensures Below(a, b) || Below(b, a)
  {
    if |a| > 0 && |b| > 0 && a[0] == b[0] {
      assert a == [a[0]] + a[1..] && b == [b[0]] + b[1..];
      BelowTotal(a[1..], b[1..]);
    }
  }

  lemma BelowAsymmetric(a: string, b: string)
    requires Below(a, b)
    ensures !Below(b, a)
  {
    if Below(b, a) {
      BelowTransitive(a, b, a);
      BelowIrreflexive(a);
    }
  }

  /** `k` is the smallest string of `keys`. */
  predicate IsLeast(k: string, keys: set<string>) {
    k in keys && forall k' :: k' in keys && k' != k ==> Below(k, k')
  }

  lemma {:induction false} LeastExists(keys: set<string>)
    requires keys != {}
    ensures exists k :: IsLeast(k, keys)
    decreases |keys|
  {
    var x :| x in keys;
    if keys != {x} {
      var rest := keys - {x};
      LeastExists(rest);
      var y :| IsLeast(y, rest);
      if Below(x, y) {
        forall k' | k' in keys && k' != x ensures Below(x, k') {
          if k' != y { BelowTransitive(x, y, k'); }
        }
        assert IsLeast(x, keys);
      } else {
        BelowTotal(x, y);
        assert IsLeast(y, keys);
      }
    } else {
      assert IsLeast(x, keys);
    }
  }

  lemma LeastUnique(keys: set<string>)
    ensures forall a, b :: IsLeast(a, keys) && IsLeast(b, keys) ==> a == b
  {
    forall a, b | IsLeast(a, keys) && IsLeast(b, keys) ensures a == b {
      if a != b {
        BelowAsymmetric(a, b);
      }
    }
  }

  /** Ascending without repetition. */
  predicate Ascending(ks: seq<string>) {
    forall i, j :: 0 <= i < j < |ks| ==> Below(ks[i], ks[j])
  }

  /** `ks` enumerates the keys of `m` in the order a `std::map` iterates them. */
  predicate KeyOrder(ks: seq<string>, m: Userdata) {
    Ascending(ks) && (forall i :: 0 <= i < |ks| ==> ks[i] in m) && (forall k :: k in m ==> k in ks)
  }

  /** The keys in ascending order, smallest first. */
  function SortedKeys(keys: set<string>): (ks: seq<string>)
    ensures Ascending(ks)
    ensures forall k :: k in ks <==> k in keys
    decreases |keys|
  {
    if keys == {} then []
    else
      LeastExists(keys);
      LeastUnique(keys);
      var k :| k in keys && IsLeast(k, keys);
      var rest := SortedKeys(keys - {k});
      assert forall j :: 0 <= j < |rest| ==> Below(k, rest[j]) by {
        forall j | 0 <= j < |rest| ensures Below(k, rest[j]) {
          assert rest[j] in keys - {k};
        }
      }
      [k] + rest
  }

  /** The head of an ascending sequence is below every other element. */
  lemma HeadIsLeast(a: seq<string>)
    requires Ascending(a) && |a| > 0
    ensures forall k :: k in a && k != a[0] ==> Below(a[0], k)
  {
  }

  /** There is only one ascending enumeration of a key set. */
  lemma {:induction false} KeyOrderUnique(a: seq<string>, b: seq<string>)
    requires Ascending(a) && Ascending(b)
    requires forall k :: k in a <==> k in b
    ensures a == b
    decreases |a|
  {
    assert |a| > 0 ==> a[0] in b;
    assert |b| > 0 ==> b[0] in a;
    if |a| > 0 && |b| > 0 {
      HeadIsLeast(a);
      HeadIsLeast(b);
      assert a[0] in b && b[0] in a;
      if a[0] != b[0] {
        BelowAsymmetric(a[0], b[0]);
      }
      BelowIrreflexive(a[0]);
      forall k ensures k in a[1..] <==> k in b[1..] {
        if k in a[1..] {
          var i :| 0 <= i < |a[1..]| && a[1..][i] == k;
          assert Below(a[0], a[i + 1]);
          assert k in b;
          var j :| 0 <= j < |b| && b[j] == k;
          assert j != 0;
          assert b[1..][j - 1] == k;
        }
        if k in b[1..] {
          var i :| 0 <= i < |b[1..]| && b[1..][i] == k;
          assert Below(b[0], b[i + 1]);
          assert k in a;
          var j :| 0 <= j < |a| && a[j] == k;
          assert j != 0;
          assert a[1..][j - 1] == k;
        }
      }
      KeyOrderUnique(a[1..], b[1..]);
      assert a == [a[0]] + a[1..] && b == [b[0]] + b[1..];
    }
  }

  /** One entry as `show_userdata` prints it. */
  function Entry(m: Userdata, k: string): string
    requires k in m
  {
    k + "=" + m[k]
  }

  /** The entries for `ks`, in that order, separated by ", ". */
  function Render(m: Userdata, ks: seq<string>): string
    requires forall i :: 0 <= i < |ks| ==> ks[i] in m
  {
    if |ks| == 0 then ""
    else if |ks| == 1 then Entry(m, ks[0])
    else Entry(m, ks[0]) + ", " + Render(m, ks[1..])
  }

  /** `show_userdata`: the entries in ascending key order, `key=value`, joined by ", ". */
  function ShowUserdata(m: Userdata): (s: string)
    ensures s == [] <==> m == map[]
  {
    var ks := SortedKeys(m.Keys);
    assert ks != [] ==> Render(m, ks)[|ks[0]|] == '=';
    assert ks == [] ==> m.Keys == {};
    Render(m, ks)
  }

  /** The rendering is the entries in the ONE ascending order of the keys, whichever way it is enumerated. */
  lemma ShowUserdataKeyOrder(m: Userdata, ks: seq<string>)
    requires KeyOrder(ks, m)
    ensures ShowUserdata(m) == Render(m, ks)
  {
    KeyOrderUnique(ks, SortedKeys(m.Keys));
  }

  /**
   * Entries that survive a trip through `show_userdata` and back: keys and
   * values non-empty, without surrounding white space and without commas,
   * and keys without `=`.
   */
  predicate Renderable(m: Userdata) {
    forall k :: k in m ==>
      k != [] && Trimmed(k) && ',' !in k && '=' !in k &&
      m[k] != [] && Trimmed(m[k]) && ',' !in m[k]
  }

  /** Parsing an entry `key=value` gives back key and value. */
  lemma ParseEntry(m: Userdata, k: string)
    requires Renderable(m) && k in m
    ensures ParseToken(Entry(m, k)) == Success((k, m[k]))
  {
    var e := Entry(m, k);
    assert e[|k|] == '=';
    assert e[..|k|] == k;
    assert IndexOf(e, '=') == Some(|k|);
    assert e[|k| + 1..] == m[k];
  }

  lemma EntryCommaFree(m: Userdata, k: string)
    requires Renderable(m) && k in m
    ensures ',' !in Entry(m, k)
  {
    var e := Entry(m, k);
    forall j | 0 <= j < |e| ensures e[j] != ',' {
      if j < |k| { assert e[j] == k[j]; }
      else if j > |k| { assert e[j] == m[k][j - |k| - 1]; }
    }
  }

  /** A rendering of two or more entries: the first entry, a comma, then a blank and the rest. */
  lemma RenderCons(m: Userdata, ks: seq<string>)
    requires |ks| >= 2
    requires forall i :: 0 <= i < |ks| ==> ks[i] in m
    ensures Render(m, ks) == Entry(m, ks[0]) + "," + (" " + Render(m, ks[1..]))
  {
    var e := Entry(m, ks[0]);
    var rest := Render(m, ks[1..]);
    var t := Render(m, ks);
    var u := e + "," + (" " + rest);
    assert t == e + ", " + rest;
    assert |t| == |u|;
    forall i | 0 <= i < |t|
      ensures t[i] == u[i]
    {
      if i < |e| {
        assert t[i] == e[i] == u[i];
      } else if i >= |e| + 2 {
        assert t[i] == rest[i - |e| - 2] == u[i];
      }
    }
  }

  /** The tokens of a rendering of two or more entries: the first entry, then the rest's tokens with a blank before the first. */
  lemma SplitRender(m: Userdata, ks: seq<string>)
    requires Renderable(m) && |ks| >= 2
    requires forall i :: 0 <= i < |ks| ==> ks[i] in m
    ensures var ts := SplitOnCommas(Render(m, ks[1..]));
            SplitOnCommas(Render(m, ks)) == [Entry(m, ks[0])] + ([" " + ts[0]] + ts[1..])
  {
    var e := Entry(m, ks[0]);
    var rest := Render(m, ks[1..]);
    var x := " " + rest;
    EntryCommaFree(m, ks[0]);
    RenderCons(m, ks);
    assert x[0] == ' ';
    SplitCons(e, x);
    SplitPrefix(" ", rest);
  }

  /** The tokens `show_userdata` output splits into: the first entry bare, every later one after a blank. */
  function RenderTokens(m: Userdata, ks: seq<string>): (ts: seq<string>)
    requires forall i :: 0 <= i < |ks| ==> ks[i] in m
    ensures |ts| == |ks|
  {
    seq(|ks|, i requires 0 <= i < |ks| => if i == 0 then Entry(m, ks[0]) else " " + Entry(m, ks[i]))
  }

  /** A single entry is one comma-free token. */
  lemma SplitRenderSingle(m: Userdata, k: string)
    requires Renderable(m) && k in m
    ensures SplitOnCommas(Render(m, [k])) == [Entry(m, k)]
  {
    EntryCommaFree(m, k);
    SplitCommaFree(Entry(m, k));
  }

  /** Splitting a rendering on commas gives exactly its entry tokens. */
  lemma {:induction false} SplitRenderTokens(m: Userdata, ks: seq<string>)
    requires Renderable(m) && |ks| >= 1
    requires forall i :: 0 <= i < |ks| ==> ks[i] in m
    ensures SplitOnCommas(Render(m, ks)) == RenderTokens(m, ks)
  {
    if |ks| == 1 {
      SplitRenderSingle(m, ks[0]);
      assert ks == [ks[0]];
    } else {
      var ts := RenderTokens(m, ks[1..]);
      SplitRenderTokens(m, ks[1..]);
      SplitRender(m, ks);
      var all := SplitOnCommas(Render(m, ks));
      var want := RenderTokens(m, ks);
      assert |all| == |want|;
      forall i | 0 <= i < |ks| ensures all[i] == want[i] {
        if i == 1 {
          assert all[1] == " " + ts[0];
        } else if i > 1 {
          assert all[i] == ts[i - 1];
          assert ks[1..][i - 1] == ks[i];
        }
      }
    }
  }

  /** Every entry token of a rendering parses back to its key and value. */
  lemma ParseRenderTokens(m: Userdata, ks: seq<string>)
    requires Renderable(m)
    requires forall i :: 0 <= i < |ks| ==> ks[i] in m
    ensures forall i :: 0 <= i < |ks| ==> ParseToken(RenderTokens(m, ks)[i]) == Success((ks[i], m[ks[i]]))
  {
    forall i | 0 <= i < |ks| ensures ParseToken(RenderTokens(m, ks)[i]) == Success((ks[i], m[ks[i]])) {
      ParseEntry(m, ks[i]);
      if i > 0 {
        ParseTokenBlankPrefix(Entry(m, ks[i]));
      }
    }
  }

  /** Applying one pair per key of `m`, each key once, to the empty map rebuilds `m`. */
  lemma ApplyEachKeyOnce(m: Userdata, ks: seq<string>, delta: seq<(string, string)>)
    requires KeyOrder(ks, m) && NonEmptyEntries(m)
    requires |delta| == |ks|
    requires forall i :: 0 <= i < |ks| ==> delta[i] == (ks[i], m[ks[i]])
    ensures Apply(map[], delta) == m
  {
    var r := Apply(map[], delta);
    forall k | k in m ensures k in r && r[k] == m[k] {
      var i :| 0 <= i < |ks| && ks[i] == k;
      forall j | i < j < |delta| ensures delta[j].0 != k {
        BelowIrreflexive(k);
        assert Below(ks[i], ks[j]);
      }
      ApplyLastWins(map[], delta, k, i);
    }
    forall k | k in r ensures k in m {
      if k !in m {
        ApplyUnmentioned(map[], delta, k);
      }
    }
  }

  /** Tokens that parse to one `(key, value)` pair per key of `m`, in key order, parse as a delta to exactly those pairs. */
  lemma DeltaOfEntryTokens(ts: seq<string>, m: Userdata, ks: seq<string>)
    requires |ts| == |ks| && forall i :: 0 <= i < |ks| ==> ks[i] in m
    requires forall i :: 0 <= i < |ts| ==> ParseToken(ts[i]) == Success((ks[i], m[ks[i]]))
    ensures ParseDelta(ts).Success?
    ensures |ParseDelta(ts).value| == |ks|
    ensures forall i :: 0 <= i < |ks| ==> ParseDelta(ts).value[i] == (ks[i], m[ks[i]])
  {
    var d := ParseDelta(ts);
    forall i | 0 <= i < |ks| ensures d.value[i] == (ks[i], m[ks[i]]) {
      assert ParseToken(ts[i]) == Success(d.value[i]);
    }
  }

  /**
   * Round trip: for a non-empty map of renderable entries, reading the text
   * `show_userdata` prints (starting from no userdata) rebuilds the map. An
   * empty map prints "", which `read_userdata` rejects.
   */
  lemma ReadShowRoundTrip(m: Userdata)
    requires Renderable(m)
    ensures m != map[] ==> ReadUserdata(ShowUserdata(m), map[]) == Success(m)
    ensures m == map[] ==> ReadUserdata(ShowUserdata(m), map[]).Failure?
  {
    if m == map[] {
      assert SplitOnCommas("")[0] == "";
      assert ParseToken("").Failure?;
    } else {
      var ks := SortedKeys(m.Keys);
      assert ks != [] by { var k :| k in m; assert k in ks; }
      SplitRenderTokens(m, ks);
      ParseRenderTokens(m, ks);
      DeltaOfEntryTokens(SplitOnCommas(Render(m, ks)), m, ks);
      ApplyEachKeyOnce(m, ks, Delta(Render(m, ks)).value);
    }
  }
}
