/** Environment: the immutable record of the hosts of one backend environment, and its asString. */
module Environments {
  import Strings

  datatype Environment = Environment(
    authHost: string,
    accountsHost: string,
    sessionHost: string,
    servicesHost: string,
    name: string)

  /** Environment.create: each accessor returns the matching argument. */
  function Create(auth: string, account: string, session: string, services: string, name: string): (e: Environment)
    ensures e.authHost == auth && e.accountsHost == account && e.sessionHost == session
    ensures e.servicesHost == services && e.name == name
  {
    Environment(auth, account, session, services, name)
  }

  /** The items of asString, in order: each field name, `='`, the accessor's result, `'`. */
  function Items(e: Environment): (items: seq<string>)
    ensures |items| == 5
  {
    [ "authHost='" + e.authHost + "'",
      "accountsHost='" + e.accountsHost + "'",
      "sessionHost='" + e.sessionHost + "'",
      "servicesHost='" + e.servicesHost + "'",
      "name='" + e.name + "'" ]
  }

  /**
   * asString: the five items joined by ", " with no prefix or suffix. It starts with `authHost='`
   * and the auth host, ends with `'`, and is 70 characters longer than the five values together.
   */
  function AsString(e: Environment): (s: string)
    ensures |s| == 70 + |e.authHost| + |e.accountsHost| + |e.sessionHost| + |e.servicesHost| + |e.name|
    ensures s[..10 + |e.authHost|] == "authHost='" + e.authHost
    ensures s[|s| - 1] == '\''
  {
    JoinedItemsBounds(e);
    Strings.Join(Items(e), ", ")
  }

  /** Each item stands in asString at its place: after the items before it and their separators. */
  lemma AsStringItems(e: Environment)
    ensures forall k :: 0 <= k < 5 ==>
      var start := Strings.Offset(Items(e), ", ", k);
      start + |Items(e)[k]| <= |AsString(e)| && AsString(e)[start..start + |Items(e)[k]|] == Items(e)[k]
  {
    forall k | 0 <= k < 5
      ensures var start := Strings.Offset(Items(e), ", ", k);
        start + |Items(e)[k]| <= |AsString(e)| && AsString(e)[start..start + |Items(e)[k]|] == Items(e)[k]
    {
      Strings.JoinAt(Items(e), ", ", k);
    }
  }

  /** The length, start and end of the joined items. */
  lemma JoinedItemsBounds(e: Environment)
    ensures var s := Strings.Join(Items(e), ", ");
      && |s| == 70 + |e.authHost| + |e.accountsHost| + |e.sessionHost| + |e.servicesHost| + |e.name|
      && s[..10 + |e.authHost|] == "authHost='" + e.authHost
      && s[|s| - 1] == '\''
  {
    var items := Items(e);
    Strings.JoinAt(items, ", ", 0);
    Strings.JoinAt(items, ", ", 4);
    assert items[1..][1..] == items[2..] && items[2..][1..] == items[3..] && items[3..][1..] == items[4..];
    assert Strings.Offset(items[3..], ", ", 1) == |items[3]| + 2;
    assert Strings.Offset(items[2..], ", ", 2) == |items[2]| + |items[3]| + 4;
    assert Strings.Offset(items[1..], ", ", 3) == |items[1]| + |items[2]| + |items[3]| + 6;
    var s := Strings.Join(items, ", ");
    assert s[..|items[0]|] == items[0];
    assert s[..10 + |e.authHost|] == items[0][..10 + |e.authHost|];
    assert items[4][|items[4]| - 1] == '\'';
  }

  /** Environments created from the same arguments agree on every accessor and on asString. */
  lemma CreateDeterministic(auth: string, account: string, session: string, services: string, name: string)
    ensures var e1, e2 := Create(auth, account, session, services, name), Create(auth, account, session, services, name);
      && e1.authHost == e2.authHost && e1.accountsHost == e2.accountsHost && e1.sessionHost == e2.sessionHost
      && e1.servicesHost == e2.servicesHost && e1.name == e2.name && AsString(e1) == AsString(e2)
  {
  }
}
