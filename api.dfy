/**
 * The shared route table and `buildUrl`, which fills the `:key`
 * placeholders of a path template from a list of parameters.
 */
module Api {
  import opened Wrappers

  // === The path table ===

  const LoginPath := "/api/login"
  const LogoutPath := "/api/logout"
  const CurrentUserPath := "/api/user"
  const UsersPath := "/api/users"
  const UserPath := "/api/users/:id"
  const MessagesPath := "/api/messages"
  const MessagePath := "/api/messages/:id"
  const PagesPath := "/api/pages"
  const PagePath := "/api/pages/:id"
  const EventsPath := "/api/events"
  const EventLikePath := "/api/events/:id/like"
  const PkBattlesPath := "/api/pk-battles"
  const AnnouncementsPath := "/api/announcements"
  const SettingPath := "/api/settings/:key"
  const SettingsPath := "/api/settings"

  // === Decimal rendering, as `String(n)` does for an integer ===

  function DigitChar(d: int): char
    requires 0 <= d < 10
  {
    "0123456789"[d]
  }

  function DigitValue(c: char): int
  {
    if '0' <= c <= '9' then c as int - '0' as int else 0
  }

  predicate IsDigits(s: string)
  {
    forall i :: 0 <= i < |s| ==> '0' <= s[i] <= '9'
  }

  /** The decimal digits of `n`, most significant first, with no leading zero. */
  function NatToString(n: nat): (r: string)
    ensures |r| > 0 && IsDigits(r)
    ensures |r| > 1 ==> r[0] != '0'
    decreases n
  {
    if n < 10 then [DigitChar(n)] else NatToString(n / 10) + [DigitChar(n % 10)]
  }

  /** Reads a string of decimal digits back as a number. */
  function ParseNat(s: string): nat
  {
    if |s| == 0 then 0 else ParseNat(s[..|s| - 1]) * 10 + if '0' <= s[|s| - 1] <= '9' then DigitValue(s[|s| - 1]) else 0
  }

  /** Rendering a number and reading it back gives the number: the rendering loses nothing. */
  lemma {:induction false} NatToStringRoundTrip(n: nat)
    ensures ParseNat(NatToString(n)) == n
    decreases n
  {
    if n >= 10 {
      var s := NatToString(n);
      assert s[..|s| - 1] == NatToString(n / 10);
      NatToStringRoundTrip(n / 10);
    }
  }

  /**
   * `String(n)` for an integer: a minus sign before the digits of a negative
   * number, and no leading zero.
   */
  function IntToString(n: int): (r: string)
    ensures |r| > 0 && ':' !in r
    ensures n >= 0 ==> IsDigits(r) && ParseNat(r) == n
    ensures n < 0 ==> r[0] == '-' && IsDigits(r[1..]) && ParseNat(r[1..]) == -n
    ensures n >= 0 && |r| > 1 ==> r[0] != '0'
    ensures n < 0 ==> |r| > 1 && (|r| > 2 ==> r[1] != '0')
  {
    NatToStringRoundTrip(if n >= 0 then n else -n);
    if n >= 0 then NatToString(n) else "-" + NatToString(-n)
  }

  /** A parameter value: `string | number` (numbers are integers here). */
  datatype ParamValue = Str(s: string) | Num(n: int)

  function Render(v: ParamValue): string
  {
    match v
    case Str(s) => s
    case Num(n) => IntToString(n)
  }

  // === Text search and replacement ===

  predicate OccursAt(s: string, pat: string, i: nat)
  {
    i + |pat| <= |s| && s[i..i + |pat|] == pat
  }

  /** The first position at or after `from` where `pat` occurs, as `indexOf` finds it. */
  function FindFrom(s: string, pat: string, from: nat): (r: Option<nat>)
    requires from <= |s|
    ensures r.Some? ==> from <= r.value && OccursAt(s, pat, r.value)
    ensures r.Some? ==> forall j :: from <= j < r.value ==> !OccursAt(s, pat, j)
    ensures r.None? ==> forall j :: from <= j <= |s| ==> !OccursAt(s, pat, j)
    decreases |s| - from
  {
    if OccursAt(s, pat, from) then Some(from)
    else if from == |s| then None
    else FindFrom(s, pat, from + 1)
  }

  function Find(s: string, pat: string): (r: Option<nat>)
    ensures r.Some? ==> OccursAt(s, pat, r.value) && forall j :: 0 <= j < r.value ==> !OccursAt(s, pat, j)
    ensures r.None? ==> forall j :: 0 <= j <= |s| ==> !OccursAt(s, pat, j)
  {
    FindFrom(s, pat, 0)
  }

  /** `s.includes(pat)` */
  predicate Includes(s: string, pat: string)
  {
    Find(s, pat).Some?
  }

  /**
   * `s.replace(pat, v)` with a string pattern: the first occurrence of `pat`
   * is replaced by `v`; everything before it and after it is kept.
   */
  function ReplaceFirst(s: string, pat: string, v: string): (r: string)
    ensures !Includes(s, pat) ==> r == s
    ensures Includes(s, pat) ==>
      var k := Find(s, pat).value;
      |r| == |s| - |pat| + |v| && r[..k] == s[..k] && r[k..k + |v|] == v && r[k + |v|..] == s[k + |pat|..]
  {
    match Find(s, pat)
    case None => s
    case Some(k) =>
      var r := s[..k] + v + s[k + |pat|..];
      assert r[..k] == s[..k] && r[k..k + |v|] == v && r[k + |v|..] == s[k + |pat|..];
      r
  }

  /**
   * Only the first occurrence is replaced: an occurrence of the pattern after
   * the first one, not overlapping it, is still there, shifted by the
   * difference in length.
   */
  lemma LaterOccurrenceKept(s: string, pat: string, v: string, j: nat)
    requires Includes(s, pat) && j >= Find(s, pat).value + |pat| && OccursAt(s, pat, j)
    ensures OccursAt(ReplaceFirst(s, pat, v), pat, j - |pat| + |v|)
  {
    var k := Find(s, pat).value;
    var r := ReplaceFirst(s, pat, v);
    var j' := j - |pat| + |v|;
    var tail := s[k + |pat|..];
    assert r[k + |v|..] == tail;
    assert r[j'..j' + |pat|] == tail[j - k - |pat|..j - k];
    assert s[j..j + |pat|] == tail[j - k - |pat|..j - k];
  }

  /** A repeated placeholder keeps its second occurrence. */
  lemma RepeatedPlaceholder()
    ensures ReplaceFirst("/a/:id/:id", ":id", "7") == "/a/7/:id"
  {
    assert Find("/a/:id/:id", ":id") == Some(3) by {
      assert OccursAt("/a/:id/:id", ":id", 3);
      assert forall j :: 0 <= j < 3 ==> !OccursAt("/a/:id/:id", ":id", j) by {
        assert "/a/:id/:id"[0] == '/' && "/a/:id/:id"[1] == 'a' && "/a/:id/:id"[2] == '/';
      }
    }
  }

  /** A pattern that starts with `:` cannot occur in a text without `:`. */
  lemma ColonFree(s: string, key: string)
    requires ':' !in s
    ensures !Includes(s, ":" + key)
  {
    var pat := ":" + key;
    forall k | 0 <= k <= |s|
      ensures !OccursAt(s, pat, k)
    {
      if k + |pat| <= |s| {
        assert s[k..k + |pat|][0] == s[k];
        assert s[k] in s;
      }
    }
  }

  /** A pattern whose first character is absent from `prefix` is first found right after it. */
  lemma FindAfterPrefix(prefix: string, pat: string, rest: string)
    requires |pat| > 0 && pat[0] !in prefix
    ensures Find(prefix + pat + rest, pat) == Some(|prefix|)
  {
    var s := prefix + pat + rest;
    assert s[|prefix|..|prefix| + |pat|] == pat;
    assert OccursAt(s, pat, |prefix|);
    forall j | 0 <= j < |prefix|
      ensures !OccursAt(s, pat, j)
    {
      if j + |pat| <= |s| {
        assert s[j..j + |pat|][0] == s[j] == prefix[j];
        assert prefix[j] in prefix;
      }
    }
  }

  // === buildUrl ===

  /**
   * The url `buildUrl` produces: the parameters are taken in order, and each
   * one whose `:key` occurs in the url built so far replaces its first
   * occurrence by the rendered value.
   */
  function Substitute(url: string, params: seq<(string, ParamValue)>): (r: string)
    ensures (forall i :: 0 <= i < |params| ==> !Includes(url, ":" + params[i].0)) ==> r == url
    decreases |params|
  {
    if |params| == 0 then url
    else
      var pat := ":" + params[0].0;
      var next := if Includes(url, pat) then ReplaceFirst(url, pat, Render(params[0].1)) else url;
      Substitute(next, params[1..])
  }

  /** `buildUrl(path, params)`: the template with its placeholders filled, parameter by parameter. */
  method BuildUrl(path: string, params: Option<seq<(string, ParamValue)>>) returns (url: string)
    ensures params.None? ==> url == path
    ensures params.Some? ==> url == Substitute(path, params.value)
  {
    url := path;
    if params.Some? {
      var ps := params.value;
      var i := 0;
      while i < |ps|
        invariant 0 <= i <= |ps|
        invariant Substitute(url, ps[i..]) == Substitute(path, ps)
      {
        var (key, value) := ps[i];
        assert ps[i..][1..] == ps[i + 1..];
        if Includes(url, ":" + key) {
          url := ReplaceFirst(url, ":" + key, Render(value));
        }
        i := i + 1;
      }
      assert ps[i..] == [];
    }
  }

  /** A path with no `:` comes back unchanged, whatever the parameters. */
  lemma {:induction false} NoPlaceholderUnchanged(path: string, params: seq<(string, ParamValue)>)
    requires ':' !in path
    ensures Substitute(path, params) == path
    decreases |params|
  {
    if |params| > 0 {
      ColonFree(path, params[0].0);
      NoPlaceholderUnchanged(path, params[1..]);
    }
  }

  /** A parameter whose placeholder is absent from the url has no effect. */
  lemma AbsentParameterIgnored(url: string, key: string, v: ParamValue, rest: seq<(string, ParamValue)>)
    requires !Includes(url, ":" + key)
    ensures Substitute(url, [(key, v)] + rest) == Substitute(url, rest)
  {
    assert ([(key, v)] + rest)[1..] == rest;
  }

  /** With a single parameter, `buildUrl` is one conditional replacement. */
  lemma SubstituteOne(url: string, key: string, v: ParamValue)
    ensures Substitute(url, [(key, v)]) == if Includes(url, ":" + key) then ReplaceFirst(url, ":" + key, Render(v)) else url
  {
    assert [(key, v)][1..] == [];
  }

  /** Filling a placeholder that follows a `:`-free prefix with a number. */
  lemma FillKey(path: string, prefix: string, key: string, suffix: string, n: int)
    requires path == prefix + (":" + key) + suffix
    requires ':' !in prefix
    ensures Substitute(path, [(key, Num(n))]) == prefix + IntToString(n) + suffix
  {
    var pat := ":" + key;
    var k := |prefix|;
    FindAfterPrefix(prefix, pat, suffix);
    var r := ReplaceFirst(path, pat, IntToString(n));
    assert r == prefix + IntToString(n) + suffix by {
      assert path[..k] == prefix;
      assert path[k + |pat|..] == suffix;
    }
    SubstituteOne(path, key, Num(n));
  }

  lemma ColonFreeJoin(a: string, b: string, c: string)
    requires ':' !in a && ':' !in b && ':' !in c
    ensures ':' !in a + b + c
  {
    var s := a + b + c;
    forall i | 0 <= i < |s|
      ensures s[i] != ':'
    {
      if i < |a| {
        assert s[i] == a[i] && a[i] in a;
      } else if i < |a| + |b| {
        assert s[i] == b[i - |a|] && b[i - |a|] in b;
      } else {
        assert s[i] == c[i - |a| - |b|] && c[i - |a| - |b|] in c;
      }
    }
  }

  /** The placeholder is matched as text, not as a whole segment: the key `i` takes the `:i` of `:id`. */
  lemma PrefixKeyMatches(n: int)
    ensures Substitute(UserPath, [("i", Num(n))]) == "/api/users/" + IntToString(n) + "d"
  {
    FillKey(UserPath, "/api/users/", "i", "d", n);
  }

  /** A path with a single `:id` placeholder and no other `:` resolves to a `:`-free url. */
  lemma FillId(path: string, prefix: string, suffix: string, n: int)
    requires path == prefix + ":id" + suffix
    requires ':' !in prefix && ':' !in suffix
    ensures Substitute(path, [("id", Num(n))]) == prefix + IntToString(n) + suffix
    ensures ':' !in Substitute(path, [("id", Num(n))])
  {
    FillKey(path, prefix, "id", suffix, n);
    ColonFreeJoin(prefix, IntToString(n), suffix);
  }

  /** The `:id` paths of the table, each with its single placeholder filled by a number. */
  lemma UserPathResolves(n: int)
    ensures Substitute(UserPath, [("id", Num(n))]) == "/api/users/" + IntToString(n)
    ensures ':' !in Substitute(UserPath, [("id", Num(n))])
  {
    FillId(UserPath, "/api/users/", "", n);
  }

  lemma MessagePathResolves(n: int)
    ensures Substitute(MessagePath, [("id", Num(n))]) == "/api/messages/" + IntToString(n)
    ensures ':' !in Substitute(MessagePath, [("id", Num(n))])
  {
    FillId(MessagePath, "/api/messages/", "", n);
  }

  lemma PagePathResolves(n: int)
    ensures Substitute(PagePath, [("id", Num(n))]) == "/api/pages/" + IntToString(n)
    ensures ':' !in Substitute(PagePath, [("id", Num(n))])
  {
    FillId(PagePath, "/api/pages/", "", n);
  }

  lemma EventLikePathResolves(n: int)
    ensures Substitute(EventLikePath, [("id", Num(n))]) == "/api/events/" + IntToString(n) + "/like"
    ensures ':' !in Substitute(EventLikePath, [("id", Num(n))])
  {
    FillId(EventLikePath, "/api/events/", "/like", n);
  }

  /** The `:id` paths of the table. */
  const IdPaths := [UserPath, MessagePath, PagePath, EventLikePath]

  /**
   * Every `:id` path of the table has exactly one placeholder, so filling it
   * with a numeric id leaves no placeholder behind.
   */
  lemma IdPathsResolve(n: int)
    ensures forall i :: 0 <= i < |IdPaths| ==> ':' !in Substitute(IdPaths[i], [("id", Num(n))])
  {
    forall i | 0 <= i < |IdPaths|
      ensures ':' !in Substitute(IdPaths[i], [("id", Num(n))])
    {
      if i == 0 {
        UserPathResolves(n);
      } else if i == 1 {
        MessagePathResolves(n);
      } else if i == 2 {
        PagePathResolves(n);
      } else {
        EventLikePathResolves(n);
      }
    }
  }
}
