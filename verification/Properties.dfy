/** The text form of property files: one key=value line per entry. */
module PropertyFile {
  import opened Bytes

  type Properties = map<string, string>

  const NUL: char := 0 as char

  /** The part of a text before the first occurrence of c. */
  function Before(c: char, s: string): (r: string)
    ensures r <= s && c !in r
    ensures |r| < |s| ==> s[|r|] == c
    ensures c !in s ==> r == s
  {
    if s == "" || s[0] == c then "" else [s[0]] + Before(c, s[1..])
  }

  lemma {:induction false} BeforeConcat(c: char, a: string, b: string)
    requires c !in a
    ensures Before(c, a + [c] + b) == a
  {
    if a != [] {
      BeforeConcat(c, a[1..], b);
      assert (a + [c] + b)[1..] == a[1..] + [c] + b;
      assert a == [a[0]] + a[1..];
    }
  }

  /** What a C string function sees of a text. */
  function CText(s: string): string {
    Before(NUL, s)
  }

  datatype Line = Entry(key: string, value: string) | NoEntry

  /** One line without its newline; comments and lines without '=' are passed over. */
  function ParseLine(line: string): Line {
    var text := CText(line);
    if text == "" || text[0] == '#' || '=' !in text then NoEntry
    else
      var key := Before('=', text);
      Entry(key, text[|key| + 1..])
  }

  function Enter(props: Properties, line: Line): Properties {
    match line
    case NoEntry => props
    case Entry(k, v) => props[k := v]
  }

  /** Reads the lines of a text into the table; a later line for a key replaces an earlier one. */
  function ParseInto(text: string, props: Properties): Properties
    decreases |text|
  {
    if text == "" then props
    else
      var line := Before('\n', text);
      var rest := if |line| < |text| then text[|line| + 1..] else "";
      ParseInto(rest, Enter(props, ParseLine(line)))
  }

  function Parse(text: string): Properties {
    ParseInto(text, map[])
  }

  function PrintLine(key: string, value: string): string {
    CText(key) + "=" + CText(value) + "\n"
  }

  /** The table is written in whatever order it is walked. */
  function Print(order: seq<string>, props: Properties): string
    requires forall k :: k in order ==> k in props
  {
    if order == [] then "" else PrintLine(order[0], props[order[0]]) + Print(order[1..], props)
  }

  /** An order in which the table can be walked: every key once. */
  predicate Enumerates(order: seq<string>, props: Properties) {
    && (forall k :: k in order ==> k in props)
    && (forall k :: k in props ==> k in order)
    && (forall i, j :: 0 <= i < j < |order| ==> order[i] != order[j])
  }

  predicate CleanKey(key: string) {
    '=' !in key && '\n' !in key && NUL !in key && !(key != "" && key[0] == '#')
  }

  predicate CleanValue(value: string) {
    '\n' !in value && NUL !in value
  }

  predicate Clean(props: Properties) {
    forall k :: k in props ==> CleanKey(k) && CleanValue(props[k])
  }

  lemma LineRoundTrip(key: string, value: string)
    requires CleanKey(key) && CleanValue(value)
    ensures ParseLine(key + "=" + value) == Entry(key, value)
    ensures '\n' !in key + "=" + value
  {
    BeforeConcat('=', key, value);
    assert CText(key + "=" + value) == key + "=" + value;
    assert (key + "=" + value)[|key| + 1..] == value;
  }

  /** Comments, lines without '=' and empty ones say nothing. */
  lemma OtherLines(line: string)
    requires NUL !in line
    ensures "#" <= line || '=' !in line ==> ParseLine(line) == NoEntry
  {
  }

  lemma FirstLine(line: string, rest: string, acc: Properties)
    requires '\n' !in line
    ensures ParseInto(line + "\n" + rest, acc) == ParseInto(rest, Enter(acc, ParseLine(line)))
  {
    hide ParseLine;
    var text := line + "\n" + rest;
    BeforeConcat('\n', line, rest);
    assert "\n" == ['\n'];
    assert text[|line| + 1..] == rest;
  }

  lemma {:induction false} PrintParses(order: seq<string>, props: Properties, acc: Properties)
    requires Clean(props) && forall k :: k in order ==> k in props
    ensures forall k :: k in ParseInto(Print(order, props), acc) <==> k in acc || k in order
    ensures forall k :: k in ParseInto(Print(order, props), acc) ==>
              ParseInto(Print(order, props), acc)[k] == if k in order then props[k] else acc[k]
  {
    if order != [] {
      hide ParseInto, ParseLine;
      var k := order[0];
      var rest := Print(order[1..], props);
      LineRoundTrip(k, props[k]);
      FirstLine(k + "=" + props[k], rest, acc);
      assert Print(order, props) == k + "=" + props[k] + "\n" + rest;
      PrintParses(order[1..], props, acc[k := props[k]]);
      assert order == [k] + order[1..];
    }
  }

  /** Whatever the order, reading a written table gives it back. */
  lemma PropertiesRoundTrip(order: seq<string>, props: Properties)
    requires Clean(props) && Enumerates(order, props)
    ensures Parse(Print(order, props)) == props
  {
    hide ParseInto, Clean;
    PrintParses(order, props, map[]);
  }

  lemma LineKeepsClean(line: string, acc: Properties)
    requires '\n' !in line && Clean(acc)
    ensures Clean(Enter(acc, ParseLine(line)))
  {
    hide ParseLine, CleanKey, CleanValue;
    if ParseLine(line).Entry? {
      EntryIsClean(line);
    }
  }

  lemma {:induction false} ParsedIsCleanFrom(text: string, acc: Properties)
    requires Clean(acc)
    ensures Clean(ParseInto(text, acc))
    decreases |text|
  {
    hide ParseLine, CleanKey, CleanValue, Clean, Enter;
    if text != "" {
      var line := Before('\n', text);
      var rest := if |line| < |text| then text[|line| + 1..] else "";
      LineKeepsClean(line, acc);
      ParsedIsCleanFrom(rest, Enter(acc, ParseLine(line)));
    }
  }

  lemma EntryIsClean(line: string)
    requires '\n' !in line && ParseLine(line).Entry?
    ensures CleanKey(ParseLine(line).key) && CleanValue(ParseLine(line).value)
  {
  }

  /** What was read from a file can be written again without loss. */
  lemma ParsedIsClean(text: string)
    ensures Clean(Parse(text))
  {
    ParsedIsCleanFrom(text, map[]);
  }
}
