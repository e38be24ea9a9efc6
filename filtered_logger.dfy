/** `filter_datum`: redacting the values of chosen fields in a log line. Field
    names and the separator are taken as literal text (they contain no regular
    expression metacharacters) and the message as a single line. */
module FilteredLogger {
  import opened Wrappers
  import opened Text

  /** The separator occurs in `s` at position `k`. */
  predicate SepAt(s: string, sep: string, k: nat) {
    k + |sep| <= |s| && s[k..k + |sep|] == sep
  }

  /** The first position at or after `from` where the separator occurs: where the
      lazy `.*?` of the pattern stops. */
  function FirstSep(s: string, sep: string, from: nat): (k: Option<nat>)
    decreases |s| - from + 1
    ensures k.Some? ==> from <= k.value && SepAt(s, sep, k.value)
    ensures k.Some? ==> forall j :: from <= j < k.value ==> !SepAt(s, sep, j)
    ensures k.None? ==> forall j :: from <= j ==> !SepAt(s, sep, j)
  {
    if from + |sep| > |s| then None
    else if s[from..from + |sep|] == sep then Some(from)
    else FirstSep(s, sep, from + 1)
  }

  /** `re.sub(field + '=.*?' + sep, field + '=' + redaction + sep, s)`: scanning
      left to right, every `field=` that has a separator after it is rewritten,
      up to and including the first such separator, as `field=<redaction><sep>`;
      scanning resumes after the rewritten span. */
  function Redact(field: string, redaction: string, sep: string, s: string): (r: string)
    ensures r == [] <==> s == []
    decreases |s|
  {
    if s == [] then []
    else
      var key := field + "=";
      var stop := if StartsWith(s, key) then FirstSep(s, sep, |key|) else None;
      if stop.Some? then key + redaction + sep + Redact(field, redaction, sep, s[stop.value + |sep|..])
      else [s[0]] + Redact(field, redaction, sep, s[1..])
  }

  /** The result of `filter_datum`: the fields applied one after another, in
      list order, each to the result of the previous ones. */
  function FilterAll(fields: seq<string>, redaction: string, message: string, sep: string): string
  {
    if fields == [] then message
    else Redact(fields[|fields| - 1], redaction, sep, FilterAll(fields[..|fields| - 1], redaction, message, sep))
  }

  /** `filter_datum(fields, redaction, message, separator)`. */
  method FilterDatum(fields: seq<string>, redaction: string, message: string, separator: string)
    returns (obfuscated: string)
    ensures obfuscated == FilterAll(fields, redaction, message, separator)
  {
    obfuscated := message;
    for i := 0 to |fields|
      invariant obfuscated == FilterAll(fields[..i], redaction, message, separator)
    {
      assert fields[..i + 1][..i] == fields[..i];
      obfuscated := Redact(fields[i], redaction, separator, obfuscated);
    }
    assert fields[..|fields|] == fields;
  }

  /** No fields: the message comes back unchanged. */
  lemma NoFieldsNoChange(redaction: string, message: string, sep: string)
    ensures FilterAll([], redaction, message, sep) == message
  {
  }

  /** Text in which no occurrence of `field=` starts is copied unchanged ahead of
      the rewrite of what follows it. */
  lemma {:induction false} PlainTextPreserved(field: string, redaction: string, sep: string, plain: string, rest: string)
    requires forall i :: 0 <= i < |plain| ==> !StartsWith((plain + rest)[i..], field + "=")
    ensures Redact(field, redaction, sep, plain + rest) == plain + Redact(field, redaction, sep, rest)
  {
    if plain == [] {
      assert plain + rest == rest;
    } else {
      var s := plain + rest;
      assert !StartsWith(s[0..], field + "=");
      assert s[0..] == s;
      assert Redact(field, redaction, sep, s) == [s[0]] + Redact(field, redaction, sep, s[1..]);
      assert s[1..] == plain[1..] + rest;
      forall i | 0 <= i < |plain[1..]|
        ensures !StartsWith((plain[1..] + rest)[i..], field + "=")
      {
        assert (plain[1..] + rest)[i..] == s[i + 1..];
      }
      PlainTextPreserved(field, redaction, sep, plain[1..], rest);
      assert plain == [plain[0]] + plain[1..];
    }
  }

  /** A message without any `field=` is left unchanged. */
  lemma NoKeyNoChange(field: string, redaction: string, sep: string, s: string)
    requires forall i :: 0 <= i < |s| ==> !StartsWith(s[i..], field + "=")
    ensures Redact(field, redaction, sep, s) == s
  {
    assert s + [] == s;
    PlainTextPreserved(field, redaction, sep, s, []);
  }

  /** `field=<value><sep>` becomes `field=<redaction><sep>` when the separator
      does not occur earlier (the value is the shortest run before a
      separator); the rest of the line is then rewritten on its own. */
  lemma {:induction false} ValueRedacted(field: string, redaction: string, sep: string, value: string, rest: string)
    requires forall j :: 0 <= j < |value| ==> !SepAt(value + sep, sep, j)
    ensures Redact(field, redaction, sep, field + "=" + value + sep + rest) ==
            field + "=" + redaction + sep + Redact(field, redaction, sep, rest)
  {
    var key := field + "=";
    var s := key + value + sep + rest;
    assert s[..|key|] == key;
    assert SepAt(s, sep, |key| + |value|) by {
      assert s[|key| + |value|..|key| + |value| + |sep|] == sep;
    }
    forall j | |key| <= j < |key| + |value|
      ensures !SepAt(s, sep, j)
    {
      assert !SepAt(value + sep, sep, j - |key|);
      assert s[j..j + |sep|] == (value + sep)[j - |key|..j - |key| + |sep|];
    }
    var stop := FirstSep(s, sep, |key|);
    assert stop == Some(|key| + |value|);
    assert s[|key| + |value| + |sep|..] == rest;
  }

  /** For a one-character separator, the value condition is simply that the
      value does not contain the separator. */
  lemma ValueRedactedChar(field: string, redaction: string, sep: char, value: string, rest: string)
    requires sep !in value
    ensures Redact(field, redaction, [sep], field + "=" + value + [sep] + rest) ==
            field + "=" + redaction + [sep] + Redact(field, redaction, [sep], rest)
  {
    forall j | 0 <= j < |value|
      ensures !SepAt(value + [sep], [sep], j)
    {
      assert (value + [sep])[j..j + 1] == [value[j]];
    }
    ValueRedacted(field, redaction, [sep], value, rest);
  }

  /** A `field=` with no separator anywhere after it is not redacted: a line
      without the separator comes back unchanged. */
  lemma {:induction false} NoSeparatorNoChange(field: string, redaction: string, sep: string, s: string)
    requires forall j :: !SepAt(s, sep, j)
    ensures Redact(field, redaction, sep, s) == s
    decreases |s|
  {
    if s != [] {
      var key := field + "=";
      var stop := if StartsWith(s, key) then FirstSep(s, sep, |key|) else None;
      assert stop.None?;
      forall j: nat ensures !SepAt(s[1..], sep, j) {
        if j + |sep| <= |s[1..]| {
          assert s[1..][j..j + |sep|] == s[j + 1..j + 1 + |sep|];
          assert !SepAt(s, sep, j + 1);
        }
      }
      NoSeparatorNoChange(field, redaction, sep, s[1..]);
      assert s == [s[0]] + s[1..];
    }
  }

  /** Matching is not anchored at a key boundary: whatever precedes `field=`
      (as `user` precedes `name=` in `username=`), the value after it is
      redacted, so the field `name` also redacts the value of `username`. */
  lemma KeyNotAnchored(field: string, redaction: string, sep: char, prefix: string, value: string)
    requires field != [] && field[0] !in prefix && sep !in value
    ensures Redact(field, redaction, [sep], prefix + field + "=" + value + [sep]) ==
            prefix + field + "=" + redaction + [sep]
  {
    var rest := field + "=" + value + [sep];
    forall i | 0 <= i < |prefix|
      ensures !StartsWith((prefix + rest)[i..], field + "=")
    {
      assert (prefix + rest)[i..][0] == prefix[i];
      assert (field + "=")[0] == field[0];
    }
    PlainTextPreserved(field, redaction, [sep], prefix, rest);
    assert rest + [] == rest;
    ValueRedactedChar(field, redaction, sep, value, []);
    assert Redact(field, redaction, [sep], []) == [];
    assert prefix + field + "=" + value + [sep] == prefix + rest;
  }

  /** The instance: with field `name`, `username=bob;` becomes `username=***;`. */
  lemma NameRedactsUsername()
    ensures Redact("name", "***", ";", "username=bob;") == "username=***;"
  {
    KeyNotAnchored("name", "***", ';', "user", "bob");
    assert "user" + "name" + "=" + "bob" + [';'] == "username=bob;";
    assert "user" + "name" + "=" + "***" + [';'] == "username=***;";
  }
}
