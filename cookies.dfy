/**
 * The cookie value codec of `Utils`: `sid_version_ip1_ip2...`, built with
 * `formCookieValue`, taken apart with `split`, and the expiry constants.
 */
module Cookies {
  import opened Wrappers
  import opened JavaInt
  import opened Text

  /** Lifetime of the cookie, in seconds. */
  const CookieMaxAge: int := 20
  /** Lifetime of a session stored by the instance that serves the request, in milliseconds. */
  const SessionExpTime: int := 25 * 1000
  /** Lifetime of a replica stored on behalf of another instance, in milliseconds. */
  const RemoteSessionExpTime: int := SessionExpTime + 5 * 1000

  /** The fields a cookie value carries, in order. */
  function CookieFields(sessionid: string, version: Int32, serverids: seq<string>): seq<string>
  {
    [sessionid, Decimal(version)] + serverids
  }

  /** `formCookieValue`: the session id, the version and each server id, joined by `_`. */
  method FormCookieValue(sessionid: string, version: Int32, serverids: seq<string>) returns (value: string)
    ensures value == Join(CookieFields(sessionid, version, serverids), '_')
  {
    var servers := "";
    for i := 0 to |serverids|
      invariant sessionid + "_" + Decimal(version) + servers
                == Join(CookieFields(sessionid, version, serverids[..i]), '_')
    {
      JoinSnoc(CookieFields(sessionid, version, serverids[..i]), serverids[i], '_');
      assert CookieFields(sessionid, version, serverids[..i]) + [serverids[i]]
          == CookieFields(sessionid, version, serverids[..i + 1]);
      servers := servers + "_" + serverids[i];
    }
    assert serverids[..|serverids|] == serverids;
    value := sessionid + "_" + Decimal(version) + servers;
  }

  /**
   * `getCookieSessionId`: the text before the first `_`.  Java throws, here
   * `None`, only when `split` leaves no field, which needs a value that
   * starts with `_`.
   */
  function GetCookieSessionId(value: string): (r: Option<string>)
    ensures r.Some? ==> r.value == value[..NextSep(value, '_', 0)]
    ensures r.None? ==> value != "" && value[0] == '_'
  {
    SplitAt(value, '_');
    var f := Split(value, '_');
    if |f| == 0 then None else Some(f[0])
  }

  /**
   * `getCookieVersion`: the text between the first and the second `_` (or
   * the end), parsed; `None` where there is no `_` or the text is not a
   * number and Java throws.
   */
  function GetCookieVersion(value: string): (r: Option<Int32>)
    ensures var i := NextSep(value, '_', 0);
      r == if i < |value| then ParseInt(value[i + 1..NextSep(value, '_', i + 1)]) else None
  {
    SplitLimitThreeAt(value, '_');
    var f := SplitLimit(value, '_', 3);
    if |f| < 2 then None else ParseInt(f[1])
  }

  /**
   * `getCookieIps`: the text after the second `_`, split on `_`; `None`
   * where the value has fewer than two `_` and Java throws.
   */
  function GetCookieIps(value: string): (r: Option<seq<string>>)
    ensures var i := NextSep(value, '_', 0);
      r == if i < |value| && NextSep(value, '_', i + 1) < |value|
           then Some(Split(value[NextSep(value, '_', i + 1) + 1..], '_'))
           else None
  {
    SplitLimitThreeAt(value, '_');
    var f := SplitLimit(value, '_', 3);
    if |f| < 3 then None else Some(Split(f[2], '_'))
  }

  /**
   * What `setCookieVersion` computes: the split value with field 1
   * replaced, joined again.  Splitting the result gives the old fields with
   * only field 1 changed, so the result reads back the old session id and
   * the new version; it fails only on a value with no readable version.
   */
  function WithVersion(value: string, version: Int32): (r: Option<string>)
    ensures r.None? ==> GetCookieVersion(value).None?
    ensures r.Some? ==> |Split(value, '_')| >= 2 && Split(r.value, '_') == Split(value, '_')[1 := Decimal(version)]
    ensures r.Some? ==> GetCookieSessionId(r.value) == GetCookieSessionId(value)
    ensures r.Some? ==> GetCookieVersion(r.value) == Some(version)
  {
    var f := Split(value, '_');
    if |f| < 2 then
      SplitLimitThreeAt(value, '_');
      SplitLimitEmptySecond(value, '_');
      None
    else
      var g := f[1 := Decimal(version)];
      Rejoined(value, version);
      SplitLimitAgrees(Join(g, '_'), '_');
      ParseDecimal(version);
      Some(Join(g, '_'))
  }

  /**
   * `setCookieVersion`: overwrites field 1 of the split value and rebuilds
   * the string field by field; `None` where the value has fewer than two
   * fields and Java throws.
   */
  method SetCookieVersion(cookieValue: string, version: Int32) returns (r: Option<string>)
    ensures r == WithVersion(cookieValue, version)
  {
    var splitcookie := Split(cookieValue, '_');
    if |splitcookie| < 2 {
      return None;
    }
    splitcookie := splitcookie[1 := Decimal(version)];
    var newval := splitcookie[0];
    for j := 1 to |splitcookie|
      invariant newval == Join(splitcookie[..j], '_')
    {
      JoinSnoc(splitcookie[..j], splitcookie[j], '_');
      assert splitcookie[..j] + [splitcookie[j]] == splitcookie[..j + 1];
      newval := newval + "_" + splitcookie[j];
    }
    assert splitcookie[..|splitcookie|] == splitcookie;
    r := Some(newval);
  }

  // ---------------------------------------------------------------------
  // Lemmas
  // ---------------------------------------------------------------------

  /** The replica tier outlives the local tier. */
  lemma RemoteOutlivesLocal()
    ensures RemoteSessionExpTime == SessionExpTime + 5000 > SessionExpTime > 0
  {
  }

  /** A formed value is `sid _ rest`, where `rest` starts with the version. */
  lemma FormedShape(sid: string, version: Int32, ips: seq<string>)
    ensures Join(CookieFields(sid, version, ips), '_')
         == sid + "_" + Join([Decimal(version)] + ips, '_')
    ensures ips == [] ==> Join([Decimal(version)] + ips, '_') == Decimal(version)
    ensures ips != [] ==> Join([Decimal(version)] + ips, '_') == Decimal(version) + "_" + Join(ips, '_')
  {
    var fs := CookieFields(sid, version, ips);
    assert fs[1..] == [Decimal(version)] + ips;
    if ips != [] {
      assert ([Decimal(version)] + ips)[1..] == ips;
    }
  }

  /** The session id is read back from a formed value when it holds no `_`. */
  lemma SessionIdOfFormed(sid: string, version: Int32, ips: seq<string>)
    requires '_' !in sid
    ensures GetCookieSessionId(Join(CookieFields(sid, version, ips), '_')) == Some(sid)
  {
    FormedShape(sid, version, ips);
    DecimalChars(version);
    var rest := Join([Decimal(version)] + ips, '_');
    FieldsOfLeading(sid, '_', rest);
    if ips == [] {
      FieldsOfPlain(Decimal(version), '_');
    } else {
      FieldsOfLeading(Decimal(version), '_', Join(ips, '_'));
    }
    var fs := Fields(sid + "_" + rest, '_');
    assert fs[0] == sid && fs[1] == Decimal(version) != "";
  }

  /** The version is read back from a formed value when the session id holds no `_`. */
  lemma VersionOfFormed(sid: string, version: Int32, ips: seq<string>)
    requires '_' !in sid
    ensures GetCookieVersion(Join(CookieFields(sid, version, ips), '_')) == Some(version)
  {
    FormedShape(sid, version, ips);
    DecimalChars(version);
    ParseDecimal(version);
    if ips == [] {
      FieldsOfPlain(Decimal(version), '_');
      FieldsOfLeading(sid, '_', Decimal(version));
    } else {
      assert sid + "_" + (Decimal(version) + "_" + Join(ips, '_'))
          == sid + ['_'] + Decimal(version) + ['_'] + Join(ips, '_');
      SplitLimitThree(sid, Decimal(version), Join(ips, '_'), '_');
    }
  }

  /**
   * The server ids are read back from a formed value when there is at least
   * one, none holds `_`, and the last is not empty (`split` drops trailing
   * empty fields).
   */
  lemma IpsOfFormed(sid: string, version: Int32, ips: seq<string>)
    requires '_' !in sid && |ips| >= 1 && FreeOf(ips, '_') && ips[|ips| - 1] != ""
    ensures GetCookieIps(Join(CookieFields(sid, version, ips), '_')) == Some(ips)
  {
    FormedShape(sid, version, ips);
    DecimalChars(version);
    assert sid + "_" + (Decimal(version) + "_" + Join(ips, '_'))
        == sid + ['_'] + Decimal(version) + ['_'] + Join(ips, '_');
    SplitLimitThree(sid, Decimal(version), Join(ips, '_'), '_');
    SplitOfJoin(ips, '_');
  }

  /** Field 1 replaced by a number: splitting the joined fields gives them back. */
  lemma Rejoined(value: string, version: Int32)
    requires |Split(value, '_')| >= 2
    ensures Split(Join(Split(value, '_')[1 := Decimal(version)], '_'), '_') == Split(value, '_')[1 := Decimal(version)]
  {
    var f := Split(value, '_');
    var g := f[1 := Decimal(version)];
    FieldsFreeOf(value, '_');
    DecimalChars(version);
    assert FreeOf(g, '_');
    assert g[|g| - 1] != "";
    SplitOfJoin(g, '_');
  }

  /** Setting the version of a formed value forms the value with the new version. */
  lemma WithVersionOfFormed(sid: string, previous: Int32, ips: seq<string>, version: Int32)
    requires '_' !in sid && FreeOf(ips, '_') && (ips == [] || ips[|ips| - 1] != "")
    ensures WithVersion(Join(CookieFields(sid, previous, ips), '_'), version)
         == Some(Join(CookieFields(sid, version, ips), '_'))
  {
    var fs := CookieFields(sid, previous, ips);
    DecimalChars(previous);
    DecimalChars(version);
    assert FreeOf(fs, '_');
    SplitOfJoin(fs, '_');
    assert fs[1 := Decimal(version)] == CookieFields(sid, version, ips);
  }
}
