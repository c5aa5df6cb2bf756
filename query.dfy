/**
 * HttpAuthenticationService.buildQuery: a map of keys to optional values, taken in iteration order,
 * written as an application/x-www-form-urlencoded query string.
 */
module Query {
  import opened Wrappers
  import Strings
  import FormEncoding

  /** One map entry: a key and a value that may be null. */
  datatype Entry = Entry(key: string, value: Option<string>)

  /** An entry that writes nothing: its key encodes to the empty string and it has no value. */
  predicate IsSilent(e: Entry)
  {
    e.key == [] && e.value.None?
  }

  /** What one entry writes after any separator: the encoded key, then `=` and the encoded value if there is one. */
  function Render(e: Entry): (r: string)
    ensures '&' !in r
    ensures '=' in r <==> e.value.Some?
    ensures r == [] <==> IsSilent(e)
  {
    FormEncoding.Encode(e.key) + (if e.value.Some? then "=" + FormEncoding.Encode(e.value.value) else "")
  }

  /**
   * One turn of the loop: `&` when the builder already holds something, then the entry. The builder
   * is only ever appended to, and a non-empty builder is followed by `&` before the entry's text.
   */
  function Append(builder: string, e: Entry): (r: string)
    ensures builder <= r
    ensures |builder| > 0 ==> |r| > |builder| && r[|builder|] == '&'
  {
    (if |builder| > 0 then builder + "&" else builder) + Render(e)
  }

  /** The string the builder holds after the loop has gone over `entries`; it never starts with `&`. */
  function FormQuery(entries: seq<Entry>): (r: string)
    ensures r != [] ==> r[0] != '&'
  {
    if entries == [] then ""
    else Append(FormQuery(entries[..|entries| - 1]), entries[|entries| - 1])
  }

  /** Every entry is silent. */
  predicate AllSilent(entries: seq<Entry>)
  {
    forall i :: 0 <= i < |entries| ==> IsSilent(entries[i])
  }

  lemma AllSilentSnoc(init: seq<Entry>, last: Entry)
    ensures AllSilent(init + [last]) <==> AllSilent(init) && IsSilent(last)
  {
    var entries := init + [last];
    assert entries[|init|] == last;
    assert forall i :: 0 <= i < |init| ==> entries[i] == init[i];
  }

  /** One turn leaves the builder empty exactly when it was empty and the entry is silent. */
  lemma AppendEmpty(builder: string, e: Entry)
    ensures Append(builder, e) == [] <==> builder == [] && IsSilent(e)
  {
    var separated := if |builder| > 0 then builder + "&" else builder;
    assert |Append(builder, e)| == |separated| + |Render(e)|;
  }

  /** The builder ends empty exactly when every entry is silent. */
  lemma {:induction false} FormQueryEmpty(entries: seq<Entry>)
    ensures FormQuery(entries) == [] <==> AllSilent(entries)
    decreases |entries|
  {
    if entries != [] {
      var init, last := entries[..|entries| - 1], entries[|entries| - 1];
      assert AllSilent(entries) <==> AllSilent(init) && IsSilent(last) by {
        AllSilentSnoc(init, last);
        assert init + [last] == entries;
      }
      assert FormQuery(entries) == [] <==> FormQuery(init) == [] && IsSilent(last) by {
        AppendEmpty(FormQuery(init), last);
      }
      FormQueryEmpty(init);
    }
  }

  /** The builder after one more entry is the builder before it, appended to. */
  lemma FormQueryStep(entries: seq<Entry>, i: nat)
    requires i < |entries|
    ensures FormQuery(entries[..i + 1]) == Append(FormQuery(entries[..i]), entries[i])
  {
    assert entries[..i + 1][..i] == entries[..i];
  }

  /** The builder after one more entry at the end. */
  lemma FormQuerySnoc(entries: seq<Entry>, e: Entry)
    ensures FormQuery(entries + [e]) == Append(FormQuery(entries), e)
  {
    assert (entries + [e])[..|entries|] == entries;
  }

  /** The separate appends of one loop turn add up to Append. */
  lemma AppendInSteps(before: string, e: Entry, separated: string, after: string)
    requires separated == if |before| > 0 then before + "&" else before
    requires e.value.None? ==> after == separated + FormEncoding.Encode(e.key)
    requires e.value.Some? ==> after == separated + FormEncoding.Encode(e.key) + "=" + FormEncoding.Encode(e.value.value)
    ensures after == Append(before, e)
  {
    var key := FormEncoding.Encode(e.key);
    if e.value.Some? {
      var value := FormEncoding.Encode(e.value.value);
      Strings.Regroup(separated + key, "=", value);
      Strings.Regroup(separated, key, "=" + value);
    } else {
      assert Render(e) == key + [];
      assert key + [] == key;
    }
  }

  /** buildQuery: "" for a null map, otherwise the entries appended one by one to a StringBuilder. */
  method BuildQuery(query: Option<seq<Entry>>) returns (r: string)
    ensures query.None? ==> r == ""
    ensures query.Some? ==> r == FormQuery(query.value)
  {
    if query.None? {
      return "";
    }
    var entries := query.value;
    var builder := "";
    for i := 0 to |entries|
      invariant builder == FormQuery(entries[..i])
    {
      var entry := entries[i];
      ghost var before := builder;
      if |builder| > 0 {
        builder := builder + "&";
      }
      ghost var separated := builder;
      builder := builder + FormEncoding.Encode(entry.key);
      if entry.value.Some? {
        builder := builder + "=";
        builder := builder + FormEncoding.Encode(entry.value.value);
      }
      AppendInSteps(before, entry, separated, builder);
      FormQueryStep(entries, i);
    }
    assert entries[..|entries|] == entries;
    return builder;
  }

  /**
   * The entries that show up in the output: all of them except the silent ones met while the
   * builder is still empty.
   */
  function Written(entries: seq<Entry>): (r: seq<Entry>)
    ensures r == [] <==> AllSilent(entries)
    ensures r != [] ==> !IsSilent(r[0])
  {
    if entries == [] then []
    else
      var before := Written(entries[..|entries| - 1]);
      var last := entries[|entries| - 1];
      if before == [] && IsSilent(last) then [] else before + [last]
  }

  /** The written entries are the entries after their leading run of silent ones. */
  lemma {:induction false} WrittenDropsLeadingSilent(entries: seq<Entry>)
    ensures exists k :: 0 <= k <= |entries| && AllSilent(entries[..k]) && Written(entries) == entries[k..]
    decreases |entries|
  {
    if entries == [] {
      assert AllSilent(entries[..0]) && Written(entries) == entries[0..];
    } else {
      var init, last := entries[..|entries| - 1], entries[|entries| - 1];
      var k: nat;
      if Written(init) == [] && IsSilent(last) {
        k := |entries|;
        assert AllSilent(entries) by {
          AllSilentSnoc(init, last);
          assert init + [last] == entries;
        }
        assert entries[..k] == entries && Written(entries) == entries[k..];
      } else {
        WrittenDropsLeadingSilent(init);
        k :| 0 <= k <= |init| && AllSilent(init[..k]) && Written(init) == init[k..];
        SliceSnoc(entries, k);
      }
      assert AllSilent(entries[..k]) && Written(entries) == entries[k..];
    }
  }

  /** Cutting a non-empty sequence before its last element, at `k`, and putting it back together. */
  lemma SliceSnoc(entries: seq<Entry>, k: nat)
    requires k < |entries|
    ensures entries[..k] == entries[..|entries| - 1][..k]
    ensures entries[k..] == entries[..|entries| - 1][k..] + [entries[|entries| - 1]]
  {
  }

  /** The text of each entry, in order. */
  function Renders(entries: seq<Entry>): (r: seq<string>)
    ensures |r| == |entries|
  {
    if entries == [] then [] else [Render(entries[0])] + Renders(entries[1..])
  }

  lemma {:induction false} RendersAt(entries: seq<Entry>, i: nat)
    requires i < |entries|
    ensures Renders(entries)[i] == Render(entries[i])
    decreases i
  {
    if i > 0 {
      RendersAt(entries[1..], i - 1);
    }
  }

  /** The builder's output is the written entries joined with `&`. */
  lemma {:induction false} FormQueryIsJoin(entries: seq<Entry>)
    ensures FormQuery(entries) == Strings.Join(Renders(Written(entries)), "&")
    decreases |entries|
  {
    if entries != [] {
      var init := entries[..|entries| - 1];
      var last := entries[|entries| - 1];
      var w := Written(init);
      assert FormQuery(entries) == Append(FormQuery(init), last);
      FormQueryIsJoin(init);
      if w != [] {
        var items := Renders(w);
        assert FormQuery(init) != [] by {
          RendersAt(w, 0);
          Strings.JoinAt(items, "&", 0);
        }
        assert Renders(w + [last]) == items + [Render(last)] by {
          RendersSnoc(w, last);
        }
        Strings.JoinSnoc(items, Render(last), "&");
      }
    }
  }

  lemma {:induction false} RendersSnoc(entries: seq<Entry>, e: Entry)
    ensures Renders(entries + [e]) == Renders(entries) + [Render(e)]
    decreases |entries|
  {
    if entries != [] {
      assert (entries + [e])[1..] == entries[1..] + [e];
      RendersSnoc(entries[1..], e);
    }
  }

  /** Reads one `&`-separated piece back as an entry: the key before the first `=`, the value after it. */
  function ParseEntry(piece: string): (r: Option<Entry>)
  {
    match Strings.IndexOf(piece, '=')
    case None =>
      var k := FormEncoding.Decode(piece);
      if k.Some? then Some(Entry(k.value, None)) else None
    case Some(i) =>
      var k, v := FormEncoding.Decode(piece[..i]), FormEncoding.Decode(piece[i + 1..]);
      if k.Some? && v.Some? then Some(Entry(k.value, Some(v.value))) else None
  }

  /** Every piece read back as an entry, or None if one of them cannot be. */
  function ParseEntries(pieces: seq<string>): (r: Option<seq<Entry>>)
    ensures r.Some? ==> |r.value| == |pieces|
  {
    if pieces == [] then Some([])
    else
      var first, others := ParseEntry(pieces[0]), ParseEntries(pieces[1..]);
      if first.Some? && others.Some? then Some([first.value] + others.value) else None
  }

  /** A standard query-string parser: split on `&`, then split each piece at its first `=` and form-decode. */
  function ParseQuery(s: string): (r: Option<seq<Entry>>)
  {
    if s == [] then Some([]) else ParseEntries(Strings.Split(s, '&'))
  }

  /** Each entry's text reads back as that entry. */
  lemma ParseRender(e: Entry)
    ensures ParseEntry(Render(e)) == Some(e)
  {
    var k := FormEncoding.Encode(e.key);
    if e.value.Some? {
      var v := FormEncoding.Encode(e.value.value);
      assert Render(e) == k + "=" + v by {
        Strings.Regroup(k, "=", v);
      }
      ParseKeyValue(e.key, e.value.value);
    } else {
      assert Render(e) == k by {
        assert k + [] == k;
      }
      ParseKeyOnly(e.key);
    }
  }

  lemma ParseKeyOnly(key: string)
    ensures ParseEntry(FormEncoding.Encode(key)) == Some(Entry(key, None))
  {
    FormEncoding.DecodeEncode(key);
    assert Strings.IndexOf(FormEncoding.Encode(key), '=').None?;
  }

  lemma ParseKeyValue(key: string, value: string)
    ensures ParseEntry(FormEncoding.Encode(key) + "=" + FormEncoding.Encode(value)) == Some(Entry(key, Some(value)))
  {
    FormEncoding.DecodeEncode(key);
    FormEncoding.DecodeEncode(value);
    SplitAtEquals(FormEncoding.Encode(key), FormEncoding.Encode(value));
  }

  /** A piece made of a key without `=`, then `=` and a value, splits back into the two. */
  lemma SplitAtEquals(k: string, v: string)
    requires '=' !in k
    ensures var piece := k + "=" + v;
      Strings.IndexOf(piece, '=') == Some(|k|) && piece[..|k|] == k && piece[|k| + 1..] == v
  {
    Strings.IndexOfAfterPrefix(k, '=', v);
    var piece := k + "=" + v;
    assert piece[..|k|] == k;
    assert piece[|k| + 1..] == v;
  }

  lemma {:induction false} ParseRenders(entries: seq<Entry>)
    ensures ParseEntries(Renders(entries)) == Some(entries)
    decreases |entries|
  {
    if entries != [] {
      var pieces := Renders(entries);
      assert ParseEntry(pieces[0]) == Some(entries[0]) by {
        ParseRender(entries[0]);
      }
      assert ParseEntries(pieces[1..]) == Some(entries[1..]) by {
        ParseRenders(entries[1..]);
        assert pieces[1..] == Renders(entries[1..]);
      }
      assert [entries[0]] + entries[1..] == entries;
    }
  }

  /**
   * Round trip: parsing the query string gives back the entries in order, except the silent ones
   * that came before anything was written.
   */
  lemma QueryRoundTrip(entries: seq<Entry>)
    ensures ParseQuery(FormQuery(entries)) == Some(Written(entries))
  {
    var w := Written(entries);
    FormQueryIsJoin(entries);
    if w != [] {
      var items := Renders(w);
      assert Strings.Join(items, "&") != [] by {
        RendersAt(w, 0);
        Strings.JoinAt(items, "&", 0);
      }
      forall i | 0 <= i < |items| ensures '&' !in items[i] {
        RendersAt(w, i);
      }
      Strings.SplitJoin(items, '&');
    }
    ParseRenders(w);
  }

  /**
   * When no entry is silent, a single `&` separates neighbouring entries: none at either end
   * and never two in a row.
   */
  lemma WellSeparated(entries: seq<Entry>)
    requires forall i :: 0 <= i < |entries| ==> !IsSilent(entries[i])
    ensures var r := FormQuery(entries);
      r == [] || (r[0] != '&' && r[|r| - 1] != '&' && forall i :: 0 <= i < |r| - 1 && r[i] == '&' ==> r[i + 1] != '&')
  {
    FormQueryIsJoin(entries);
    WrittenWithoutSilent(entries);
    if entries != [] {
      var items := Renders(entries);
      forall i | 0 <= i < |items|
        ensures items[i] != [] && '&' !in items[i]
      {
        RendersAt(entries, i);
      }
      Strings.JoinWellSeparated(items, '&');
    }
  }

  /** Without silent entries, every entry is written. */
  lemma {:induction false} WrittenWithoutSilent(entries: seq<Entry>)
    requires forall i :: 0 <= i < |entries| ==> !IsSilent(entries[i])
    ensures Written(entries) == entries
    decreases |entries|
  {
    if entries != [] {
      WrittenWithoutSilent(entries[..|entries| - 1]);
      assert entries[..|entries| - 1] + [entries[|entries| - 1]] == entries;
    }
  }

  /** A silent entry met while the builder is empty adds nothing, and the next entry gets no `&`. */
  lemma SilentFirstEntry(entries: seq<Entry>, silent: Entry, e: Entry)
    requires FormQuery(entries) == [] && IsSilent(silent)
    ensures FormQuery(entries + [silent]) == []
    ensures FormQuery(entries + [silent, e]) == Render(e)
  {
    assert FormQuery(entries + [silent]) == [] by {
      FormQuerySnoc(entries, silent);
      AppendEmpty(FormQuery(entries), silent);
    }
    assert entries + [silent, e] == entries + [silent] + [e] by {
      Strings.Regroup(entries, [silent], [e]);
      assert [silent] + [e] == [silent, e];
    }
    FormQuerySnoc(entries + [silent], e);
    assert [] + Render(e) == Render(e);
  }

  /**
   * A silent entry met after something was written still adds its `&`: a trailing `&` when it is
   * last, a doubled `&` when another entry follows.
   */
  lemma SilentLaterEntry(entries: seq<Entry>, silent: Entry, e: Entry)
    requires FormQuery(entries) != [] && IsSilent(silent)
    ensures FormQuery(entries + [silent]) == FormQuery(entries) + "&"
    ensures FormQuery(entries + [silent, e]) == FormQuery(entries) + "&&" + Render(e)
  {
    var before := FormQuery(entries);
    assert FormQuery(entries + [silent]) == before + "&" by {
      FormQuerySnoc(entries, silent);
      assert Render(silent) == [];
      assert before + "&" + [] == before + "&";
    }
    assert entries + [silent, e] == entries + [silent] + [e] by {
      Strings.Regroup(entries, [silent], [e]);
      assert [silent] + [e] == [silent, e];
    }
    assert before + "&" + "&" == before + "&&" by {
      Strings.Regroup(before, "&", "&");
    }
    FormQuerySnoc(entries + [silent], e);
  }

  /** Two entries, the first of them written: the texts with one `&` between them. */
  lemma TwoEntries(x: Entry, y: Entry)
    requires !IsSilent(x)
    ensures FormQuery([x, y]) == Render(x) + "&" + Render(y)
  {
    assert FormQuery([x]) == Render(x) by {
      FormQuerySnoc([], x);
      assert [] + [x] == [x];
    }
    assert [x] + [y] == [x, y];
    FormQuerySnoc([x], y);
  }

  /** The documented example: a valued entry and a key-only entry. */
  lemma TwoEntryExample()
    ensures FormQuery([Entry("a", Some("1")), Entry("b", None)]) == "a=1&b"
  {
    var x, y := Entry("a", Some("1")), Entry("b", None);
    assert Render(x) == "a=1" by {
      assert FormEncoding.Encode("a") == "a" && FormEncoding.Encode("1") == "1";
    }
    assert Render(y) == "b" by {
      assert FormEncoding.Encode("b") == "b";
    }
    TwoEntries(x, y);
  }
}
