/**
 * The CORS origin check: `ALLOWED_ORIGINS` is parsed once into an allow-list of
 * trimmed, non-empty entries, and each request's Origin header is admitted or refused.
 */
module Cors {
  import opened Wrappers
  import opened Strings

  /** `.map((origin) => origin.trim())`. */
  function TrimAll(segments: seq<string>): (trimmed: seq<string>) {
    seq(|segments|, k requires 0 <= k < |segments| => Trim(segments[k]))
  }

  /** `.filter(Boolean)` on strings: the non-empty ones, in order. */
  function NonEmpty(xs: seq<string>): (r: seq<string>)
    ensures |r| <= |xs|
  {
    if xs == [] then []
    else if xs[0] == [] then NonEmpty(xs[1..])
    else [xs[0]] + NonEmpty(xs[1..])
  }

  /** The filter keeps exactly the non-empty strings. */
  lemma {:induction false} NonEmptyMembers(xs: seq<string>)
    ensures forall x :: x in NonEmpty(xs) <==> x in xs && x != []
  {
    if xs != [] {
      NonEmptyMembers(xs[1..]);
      assert xs == [xs[0]] + xs[1..];
    }
  }

  /** The filter keeps the order: filtering a concatenation concatenates the results. */
  lemma {:induction false} NonEmptyAppend(a: seq<string>, b: seq<string>)
    ensures NonEmpty(a + b) == NonEmpty(a) + NonEmpty(b)
  {
    if a != [] {
      NonEmptyAppend(a[1..], b);
      assert (a + b)[0] == a[0] && (a + b)[1..] == a[1..] + b;
    } else {
      assert a + b == b;
    }
  }

  /** `ALLOWED_ORIGINS.split(",").map((origin) => origin.trim()).filter(Boolean)`. */
  function ParseAllowList(allowedOrigins: string): (allowList: seq<string>) {
    NonEmpty(TrimAll(Split(allowedOrigins, ',')))
  }

  /** A non-empty string is an entry exactly when some comma-separated segment trims to it. */
  lemma AllowListHas(allowedOrigins: string, x: string)
    requires x != []
    ensures x in ParseAllowList(allowedOrigins) ==>
              exists j :: 0 <= j < |Split(allowedOrigins, ',')| && Trim(Split(allowedOrigins, ',')[j]) == x
    ensures (exists j :: 0 <= j < |Split(allowedOrigins, ',')| && Trim(Split(allowedOrigins, ',')[j]) == x) ==>
              x in ParseAllowList(allowedOrigins)
  {
    var segments := Split(allowedOrigins, ',');
    var trimmed := TrimAll(segments);
    NonEmptyMembers(trimmed);
    assert ParseAllowList(allowedOrigins) == NonEmpty(trimmed);
    if x in ParseAllowList(allowedOrigins) {
      assert x in trimmed;
      var j :| 0 <= j < |trimmed| && trimmed[j] == x;
      assert 0 <= j < |segments| && Trim(segments[j]) == x;
      assert exists j :: 0 <= j < |Split(allowedOrigins, ',')| && Trim(Split(allowedOrigins, ',')[j]) == x;
    }
    if exists j :: 0 <= j < |segments| && Trim(segments[j]) == x {
      var j :| 0 <= j < |segments| && Trim(segments[j]) == x;
      assert trimmed[j] == x;
      assert x in trimmed;
      assert x in ParseAllowList(allowedOrigins);
    }
  }

  /** Every entry is non-empty, has no surrounding spaces and holds no comma. */
  lemma AllowListEntries(allowedOrigins: string)
    ensures var list := ParseAllowList(allowedOrigins);
            forall k :: 0 <= k < |list| ==> list[k] != [] && IsTrimmed(list[k]) && ',' !in list[k]
  {
    var segments := Split(allowedOrigins, ',');
    var trimmed := TrimAll(segments);
    var list := ParseAllowList(allowedOrigins);
    NonEmptyMembers(trimmed);
    forall k | 0 <= k < |list| ensures list[k] != [] && IsTrimmed(list[k]) && ',' !in list[k] {
      assert list[k] in trimmed;
      var j :| 0 <= j < |trimmed| && trimmed[j] == list[k];
      TrimKeepsOut(segments[j], ',');
    }
  }

  /**
   * Entries keep their comma order: the list for `u,v` is the list for `u` followed by the
   * list for `v`.
   */
  lemma AllowListOrder(u: string, v: string)
    ensures ParseAllowList(u + [','] + v) == ParseAllowList(u) + ParseAllowList(v)
  {
    var su, sv := Split(u, ','), Split(v, ',');
    SplitAppend(u, ',', v);
    assert TrimAll(su + sv) == TrimAll(su) + TrimAll(sv);
    NonEmptyAppend(TrimAll(su), TrimAll(sv));
  }

  /** Trimming never brings in a character the string did not have. */
  lemma TrimKeepsOut(s: string, c: char)
    requires c !in s
    ensures c !in Trim(s)
  {
    var r := Trim(s);
    var i := TrimSandwich(s);
    forall k | 0 <= k < |r| ensures r[k] != c {
      assert s[i + k] == r[k];
    }
  }

  /**
   * The `origin` callback: a request without an Origin header (or with an empty one)
   * and every request when the list is empty are admitted; otherwise the origin must
   * be an exact entry of the list, and anything else fails with "Not allowed by CORS".
   */
  function Admit(origin: Option<string>, allowList: seq<string>): (admitted: bool)
    ensures origin.Some? && origin.value != [] && allowList != [] ==>
              (admitted <==> exists k :: 0 <= k < |allowList| && allowList[k] == origin.value)
    ensures origin.None? || origin.value == [] || allowList == [] ==> admitted
  {
    origin.None? || origin.value == [] || |allowList| == 0 || origin.value in allowList
  }

  /**
   * The admit decision in terms of the raw `ALLOWED_ORIGINS` value: a non-empty origin is
   * admitted iff the parsed list is empty or some comma-separated segment trims to it.
   */
  lemma AdmitFromConfig(allowedOrigins: string, origin: string)
    requires origin != []
    ensures Admit(Some(origin), ParseAllowList(allowedOrigins)) <==>
              || ParseAllowList(allowedOrigins) == []
              || exists j :: 0 <= j < |Split(allowedOrigins, ',')| && Trim(Split(allowedOrigins, ',')[j]) == origin
  {
    AllowListHas(allowedOrigins, origin);
  }

  /** An origin with surrounding spaces or a comma can only pass when the list is empty. */
  lemma UnlistableOriginRefused(allowedOrigins: string, origin: string)
    requires origin != [] && (!IsTrimmed(origin) || ',' in origin)
    requires ParseAllowList(allowedOrigins) != []
    ensures !Admit(Some(origin), ParseAllowList(allowedOrigins))
  {
    AllowListEntries(allowedOrigins);
  }

  /** The list is empty, and every origin admitted, iff the value holds only spaces and commas. */
  lemma BlankAllowList(allowedOrigins: string)
    ensures ParseAllowList(allowedOrigins) == [] <==>
              forall i :: 0 <= i < |allowedOrigins| ==> allowedOrigins[i] == ',' || IsJsSpace(allowedOrigins[i])
  {
    var segments := Split(allowedOrigins, ',');
    AllBlankIff(segments);
    JoinChars(segments, ',');
  }

  /** No entry survives iff every segment is all spaces. */
  lemma AllBlankIff(segments: seq<string>)
    ensures NonEmpty(TrimAll(segments)) == [] <==> forall j :: 0 <= j < |segments| ==> AllSpace(segments[j])
  {
    var trimmed := TrimAll(segments);
    NonEmptyMembers(trimmed);
    forall j | 0 <= j < |segments| ensures trimmed[j] == [] <==> AllSpace(segments[j]) {
      TrimEmptyIff(segments[j]);
    }
    if NonEmpty(trimmed) != [] {
      assert NonEmpty(trimmed)[0] in trimmed;
    }
    if exists j :: 0 <= j < |segments| && !AllSpace(segments[j]) {
      var j :| 0 <= j < |segments| && !AllSpace(segments[j]);
      assert trimmed[j] in NonEmpty(trimmed);
    }
  }

  /** A string trims to nothing iff it is all spaces. */
  lemma TrimEmptyIff(s: string)
    ensures Trim(s) == [] <==> AllSpace(s)
  {
    var r := Trim(s);
    var i := TrimSandwich(s);
    if r == [] {
      forall k | 0 <= k < |s| ensures IsJsSpace(s[k]) {
        if k < i { assert s[..i][k] == s[k]; } else { assert s[i..][k - i] == s[k]; }
      }
    } else {
      assert s[i] == r[0];
    }
  }

  /** Every character of a join is the separator or a character of some part. */
  lemma {:induction false} JoinChars(parts: seq<string>, sep: char)
    requires |parts| >= 1
    ensures forall i :: 0 <= i < |Join(parts, sep)| ==>
              Join(parts, sep)[i] == sep || exists j, k :: 0 <= j < |parts| && 0 <= k < |parts[j]| && parts[j][k] == Join(parts, sep)[i]
    ensures forall j, k :: 0 <= j < |parts| && 0 <= k < |parts[j]| ==> parts[j][k] in Join(parts, sep)
  {
    var s := Join(parts, sep);
    if |parts| > 1 {
      JoinChars(parts[1..], sep);
      var t := Join(parts[1..], sep);
      assert s == parts[0] + [sep] + t;
      forall i | 0 <= i < |s|
        ensures s[i] == sep || exists j, k :: 0 <= j < |parts| && 0 <= k < |parts[j]| && parts[j][k] == s[i]
      {
        if i < |parts[0]| {
          assert parts[0][i] == s[i];
        } else if i > |parts[0]| {
          assert s[i] == t[i - |parts[0]| - 1];
          if t[i - |parts[0]| - 1] != sep {
            var j, k :| 0 <= j < |parts[1..]| && 0 <= k < |parts[1..][j]| && parts[1..][j][k] == t[i - |parts[0]| - 1];
            assert parts[j + 1][k] == s[i];
          }
        }
      }
      forall j, k | 0 <= j < |parts| && 0 <= k < |parts[j]| ensures parts[j][k] in s {
        if j == 0 {
          assert s[k] == parts[0][k];
        } else {
          assert parts[1..][j - 1] == parts[j];
          assert parts[j][k] in t;
          var m :| 0 <= m < |t| && t[m] == parts[j][k];
          assert s[|parts[0]| + 1 + m] == t[m];
        }
      }
    }
  }
}
