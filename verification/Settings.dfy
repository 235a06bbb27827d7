/** The settings file of `ZSettings`: a parser (the constructor), a printer (`sync`) and the map
    between them. */
module Settings {
  import opened Wrappers

  /** Size of the line buffer; a line holds one character less. */
  const BUFFER := 1024

  type Text = string

  /** The first position of `c`, or the length of `s`. */
  function Find(s: string, c: char): (n: nat)
    ensures n <= |s| && (n < |s| ==> s[n] == c) && forall i :: 0 <= i < n ==> s[i] != c
  {
    if s == "" || s[0] == c then 0 else 1 + Find(s[1..], c)
  }

  /** What `std::string(buff)` keeps of a line: everything up to the first NUL. */
  function CString(line: string): string {
    line[..Find(line, '\0')]
  }

  /** One line: without '=' it is ignored; the first '=' separates key and value. */
  function Parse(m: map<string, string>, line: string): map<string, string> {
    var s := CString(line);
    var n := Find(s, '=');
    if n == |s| then m else m[s[..n] := s[n + 1..]]
  }

  /** The loop over `getline`: it stops at the end of the text and at the first line that does not
      fit the buffer. */
  function LoadFrom(m: map<string, string>, text: Text): map<string, string>
    decreases |text|
  {
    if text == "" then m
    else
      var n := Find(text, '\n');
      if n > BUFFER - 1 then m
      else LoadFrom(Parse(m, text[..n]), text[if n < |text| then n + 1 else n..])
  }

  function Load(text: Text): map<string, string> {
    LoadFrom(map[], text)
  }

  function Line(k: string, v: string): string {
    k + "=" + v
  }

  /** The file written for the keys in the order `keys`. */
  function Print(m: map<string, string>, keys: seq<string>): Text
    requires forall k :: k in keys ==> k in m
  {
    if keys == [] then "" else Line(keys[0], m[keys[0]]) + "\n" + Print(m, keys[1..])
  }

  /** `keys` lists the keys of `m`, each once, in whatever order the map keeps them. */
  ghost predicate Enumerates(keys: seq<string>, m: map<string, string>) {
    && (forall k :: k in keys <==> k in m)
    && (forall i, j :: 0 <= i < j < |keys| ==> keys[i] != keys[j])
  }

  /** An entry that the file format can carry. */
  predicate Printable(k: string, v: string) {
    && '=' !in k && '\n' !in k && '\0' !in k
    && '\n' !in v && '\0' !in v
    && |Line(k, v)| < BUFFER
  }

  predicate AllPrintable(m: map<string, string>) {
    forall k :: k in m ==> Printable(k, m[k])
  }

  lemma {:induction false} FindIs(s: string, c: char, n: nat)
    requires n <= |s| && (n < |s| ==> s[n] == c) && forall i :: 0 <= i < n ==> s[i] != c
    ensures Find(s, c) == n
  {
  }

  /** A printed line is read back as the entry it was printed from. */
  lemma ParseLine(m: map<string, string>, k: string, v: string)
    requires Printable(k, v)
    ensures Parse(m, Line(k, v)) == m[k := v]
  {
    var line := Line(k, v);
    FindIs(line, '\0', |line|);
    assert line[..|line|] == line;
    FindIs(line, '=', |k|);
    assert line[..|k|] == k && line[|k| + 1..] == v;
  }

  /** Whatever a line holds, what is read from it is printable. */
  lemma ParsedIsPrintable(m: map<string, string>, line: string)
    requires AllPrintable(m) && '\n' !in line && |line| < BUFFER
    ensures AllPrintable(Parse(m, line))
  {
    var s := CString(line);
    var n := Find(s, '=');
    if n < |s| {
      assert forall i :: 0 <= i < |s| ==> s[i] == line[i] && s[i] != '\0' && s[i] != '\n';
      assert Line(s[..n], s[n + 1..]) == s;
    }
  }

  lemma {:induction false} LoadedIsPrintable(m: map<string, string>, text: Text)
    requires AllPrintable(m)
    ensures AllPrintable(LoadFrom(m, text))
    decreases |text|
  {
    if text != "" {
      var n := Find(text, '\n');
      if n <= BUFFER - 1 {
        ParsedIsPrintable(m, text[..n]);
        LoadedIsPrintable(Parse(m, text[..n]), text[if n < |text| then n + 1 else n..]);
      }
    }
  }

  lemma LoadLine(before: map<string, string>, line: string, rest: Text)
    requires '\n' !in line && |line| < BUFFER
    ensures LoadFrom(before, line + "\n" + rest) == LoadFrom(Parse(before, line), rest)
  {
    var text := line + "\n" + rest;
    FindIs(text, '\n', |line|);
    assert text[..|line|] == line && text[|line| + 1..] == rest;
  }

  /** The format of the file, line by line: an entry, the first '=' ending its key, replaces what its key had;
      a line without '=' and all that follows a NUL in its line are ignored; the last line may lack its
      newline; and a line of 1024 characters or more ends the loading. */
  lemma EntryLine(before: map<string, string>, k: string, v: string, rest: Text)
    requires '=' !in k && '\n' !in k && '\0' !in k && '\n' !in v && '\0' !in v && |k| + 1 + |v| <= 1023
    ensures LoadFrom(before, k + "=" + v + "\n" + rest) == LoadFrom(before[k := v], rest)
  {
    LoadLine(before, Line(k, v), rest);
    ParseLine(before, k, v);
  }

  lemma IgnoredLine(before: map<string, string>, line: string, rest: Text)
    requires '=' !in line && '\n' !in line && |line| <= 1023
    ensures LoadFrom(before, line + "\n" + rest) == LoadFrom(before, rest)
  {
    LoadLine(before, line, rest);
  }

  lemma CStringStopsAtNul(s: string, junk: string)
    requires '\0' !in s
    ensures '\n' !in s && '\n' !in junk ==> '\n' !in s + "\0" + junk
    ensures CString(s + "\0" + junk) == s == CString(s)
  {
    var line := s + "\0" + junk;
    FindIs(line, '\0', |s|);
    FindIs(s, '\0', |s|);
    assert line[..|s|] == s == s[..|s|];
  }

  lemma SameStringSameLoad(before: map<string, string>, a: string, b: string, rest: Text)
    requires '\n' !in a && |a| < BUFFER && '\n' !in b && |b| < BUFFER && CString(a) == CString(b)
    ensures LoadFrom(before, a + "\n" + rest) == LoadFrom(before, b + "\n" + rest)
  {
    LoadLine(before, a, rest);
    LoadLine(before, b, rest);
  }

  lemma NulCutsLine(before: map<string, string>, s: string, junk: string, rest: Text)
    requires '\0' !in s && '\n' !in s && '\n' !in junk && |s| + 1 + |junk| <= 1023
    ensures LoadFrom(before, s + "\0" + junk + "\n" + rest) == LoadFrom(before, s + "\n" + rest)
  {
    CStringStopsAtNul(s, junk);
    SameStringSameLoad(before, s + "\0" + junk, s, rest);
  }

  lemma LastLine(before: map<string, string>, line: string)
    requires '\n' !in line && |line| <= 1023
    ensures LoadFrom(before, line) == LoadFrom(before, line + "\n")
  {
    LoadLine(before, line, "");
    assert line + "\n" + "" == line + "\n";
    FindIs(line, '\n', |line|);
    assert line[..|line|] == line && line[|line|..] == "";
  }

  lemma LongLineStops(before: map<string, string>, line: string, rest: Text)
    requires '\n' !in line && |line| == 1024
    ensures LoadFrom(before, line + rest) == before
  {
    var text := line + rest;
    assert forall i :: 0 <= i < 1024 ==> text[i] == line[i];
  }

  /** `before` overwritten with the entries of `m` for `keys`. */
  function Overlay(before: map<string, string>, m: map<string, string>, keys: seq<string>): map<string, string>
    requires forall k :: k in keys ==> k in m
    decreases |keys|
  {
    if keys == [] then before else Overlay(before[keys[0] := m[keys[0]]], m, keys[1..])
  }

  lemma {:induction false} OverlayAt(before: map<string, string>, m: map<string, string>, keys: seq<string>, k: string)
    requires forall k :: k in keys ==> k in m
    ensures k in Overlay(before, m, keys) <==> k in before || k in keys
    ensures k in keys ==> Overlay(before, m, keys)[k] == m[k]
    ensures k in before && k !in keys ==> Overlay(before, m, keys)[k] == before[k]
    decreases |keys|
  {
    if keys != [] {
      OverlayAt(before[keys[0] := m[keys[0]]], m, keys[1..], k);
      assert keys == [keys[0]] + keys[1..];
    }
  }

  lemma {:induction false} LoadPrinted(before: map<string, string>, m: map<string, string>, keys: seq<string>)
    requires (forall k :: k in keys ==> k in m) && AllPrintable(m)
    ensures LoadFrom(before, Print(m, keys)) == Overlay(before, m, keys)
    decreases |keys|
  {
    if keys != [] {
      var k := keys[0];
      assert Printable(k, m[k]);
      LoadLine(before, Line(k, m[k]), Print(m, keys[1..]));
      ParseLine(before, k, m[k]);
      LoadPrinted(before[k := m[k]], m, keys[1..]);
    }
  }

  /** Loading what was printed, in any order, gives the same map exactly when every entry is printable. */
  lemma SettingsRoundTripIff(m: map<string, string>, keys: seq<string>)
    requires Enumerates(keys, m)
    ensures Load(Print(m, keys)) == m <==> AllPrintable(m)
  {
    LoadedIsPrintable(map[], Print(m, keys));
    if AllPrintable(m) {
      LoadPrinted(map[], m, keys);
      forall k
        ensures k in Load(Print(m, keys)) <==> k in m
        ensures k in m ==> Load(Print(m, keys))[k] == m[k]
      {
        OverlayAt(map[], m, keys, k);
      }
    }
  }

  /** Any file at all: what it loads as survives being printed and loaded again. */
  lemma LoadedSettingsRoundTrip(text: Text, keys: seq<string>)
    requires Enumerates(keys, Load(text))
    ensures Load(Print(Load(text), keys)) == Load(text)
  {
    LoadedIsPrintable(map[], text);
    SettingsRoundTripIff(Load(text), keys);
  }

  lemma Associates(first: Text, rest: Text, k: string, v: string)
    ensures first + (rest + k + "=" + v + "\n") == first + rest + k + "=" + v + "\n"
  {
  }

  lemma {:induction false} PrintAppend(m: map<string, string>, keys: seq<string>, k: string)
    requires (forall k :: k in keys ==> k in m) && k in m
    ensures Print(m, []) == ""
    ensures Print(m, keys + [k]) == Print(m, keys) + k + "=" + m[k] + "\n"
  {
    if keys == [] {
      assert Print(m, [k][1..]) == "";
    } else {
      var rest := keys[1..];
      PrintAppend(m, rest, k);
      assert (keys + [k])[1..] == rest + [k];
      Associates(Line(keys[0], m[keys[0]]) + "\n", Print(m, rest), k, m[k]);
    }
  }

  function TextOf(m: map<string, string>, key: string, default: string): string {
    if key in m then m[key] else default
  }

  function FlagOf(m: map<string, string>, key: string, default: bool): bool {
    if key in m then m[key] == "true" else default
  }

  function FlagText(b: bool): string {
    if b then "true" else "false"
  }

  /** A flag that was set reads as set and every other key as before, both at once and after the
      settings were saved, in any order, and loaded again. */
  lemma FlagSurvivesSaving(m: map<string, string>, key: string, b: bool, keys: seq<string>)
    requires Enumerates(keys, m[key := FlagText(b)]) && AllPrintable(m[key := FlagText(b)])
    ensures var changed := m[key := FlagText(b)];
            var loaded := Load(Print(changed, keys));
            && (forall d :: FlagOf(changed, key, d) == FlagOf(loaded, key, d) == b)
            && (forall k, d :: k != key ==> TextOf(changed, k, d) == TextOf(loaded, k, d) == TextOf(m, k, d))
            && (forall k, d :: k != key ==> FlagOf(changed, k, d) == FlagOf(loaded, k, d) == FlagOf(m, k, d))
  {
    SettingsRoundTripIff(m[key := FlagText(b)], keys);
  }

  /** `file` is the content of the file, `None` when it cannot be opened for reading. */
  class ZSettings {
    var cxt: map<string, string>
    var update: bool
    var file: Option<Text>

    constructor (file: Option<Text>)
      ensures this.file == file && !update
      ensures cxt == if file.Some? then Load(file.value) else map[]
    {
      this.file := file;
      update := false;
      cxt := map[];
      new;
      if file.Some? {
        var rest := file.value;
        while rest != ""
          invariant this.file == file && !update
          invariant LoadFrom(cxt, rest) == Load(file.value)
          decreases |rest|
        {
          var n := Find(rest, '\n');
          if n > BUFFER - 1 {
            break;
          }
          var buff := rest[..n];
          ghost var before := rest;
          rest := rest[if n < |rest| then n + 1 else n..];
          var str := CString(buff);
          var pos := Find(str, '=');
          if pos == |str| {
            continue;
          }
          var k := str[..pos];
          var v := str[pos + 1..];
          cxt := cxt[k := v];
        }
      }
    }

    method GetString(key: string, defaultValue: string) returns (v: string)
      ensures v == TextOf(cxt, key, defaultValue)
      ensures key in cxt ==> v == cxt[key]
      ensures key !in cxt ==> v == defaultValue
    {
      if key !in cxt {
        v := defaultValue;
      } else {
        v := cxt[key];
      }
    }

    method GetBoolean(key: string, defaultValue: bool) returns (v: bool)
      ensures v == FlagOf(cxt, key, defaultValue)
      ensures key in cxt ==> (v <==> cxt[key] == "true")
      ensures key !in cxt ==> v == defaultValue
    {
      if key !in cxt {
        v := defaultValue;
      } else {
        v := cxt[key] == "true";
      }
    }

    method SetValue(key: string, val: string)
      modifies this`cxt, this`update
      ensures cxt == old(cxt)[key := val] && update
    {
      update := true;
      cxt := cxt[key := val];
    }

    method SetBoolean(key: string, val: bool)
      modifies this`cxt, this`update
      ensures cxt == old(cxt)[key := FlagText(val)] && update
      ensures cxt == old(cxt)[key := if val then "true" else "false"]
    {
      update := true;
      cxt := cxt[key := if val then "true" else "false"];
    }

    /** Writes nothing unless a value was set since the settings were loaded. `opens` is whether the
        file can be opened for writing; `keys` the order in which the map was traversed. */
    method Sync(opens: bool) returns (ghost keys: seq<string>)
      modifies this`file
      ensures update && opens ==> Enumerates(keys, cxt) && file == Some(Print(cxt, keys))
      ensures !(update && opens) ==> file == old(file)
    {
      keys := [];
      if !update || !opens {
        return;
      }
      var todo := cxt.Keys;
      var text := "";
      while todo != {}
        invariant todo <= cxt.Keys
        invariant forall k :: k in keys <==> k in cxt && k !in todo
        invariant forall i, j :: 0 <= i < j < |keys| ==> keys[i] != keys[j]
        invariant text == Print(cxt, keys)
        decreases |todo|
      {
        var k :| k in todo;
        PrintAppend(cxt, keys, k);
        text := text + Line(k, cxt[k]) + "\n";
        keys := keys + [k];
        todo := todo - {k};
      }
      file := Some(text);
    }
  }
}
