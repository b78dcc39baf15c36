/**
  src/csvparser.cpp: one line of comma-separated values into its fields, against a writer in the
  style of section 2 of RFC 4180.
 */
module CsvParser {

  const QUOTE := '"'
  const NUL := '\0'

  predicate LineEnd(c: char) {
    c == '\r' || c == '\n'
  }

  /** What the loop makes of the rest of a line, from each of its states. */
  function Parse(s: string, delimiter: char, inQuotes: bool, current: string, record: seq<string>): seq<string>
    decreases |s|
  {
    if s == [] || s[0] == NUL then record + [current]
    else if !inQuotes && current == "" && s[0] == QUOTE then Parse(s[1..], delimiter, true, current, record)
    else if inQuotes && s[0] == QUOTE then
      if |s| > 1 && s[1] == QUOTE
      then Parse(s[2..], delimiter, inQuotes, current + [QUOTE], record)
      else Parse(s[1..], delimiter, false, current, record)
    else if !inQuotes && s[0] == delimiter then Parse(s[1..], delimiter, inQuotes, "", record + [current])
    else if !inQuotes && LineEnd(s[0]) then record + [current]
    else Parse(s[1..], delimiter, inQuotes, current + [s[0]], record)
  }

  /** `csvline_populate`; reading `line` at its length yields the terminating NUL. */
  method Populate(line: string, delimiter: char) returns (record: seq<string>)
    ensures record == Parse(line, delimiter, false, "", [])
  {
    var (pos, inQuotes, current) := (0, false, "");
    record := [];
    while pos < |line| && line[pos] != NUL
      invariant pos <= |line|
      invariant Parse(line[pos..], delimiter, inQuotes, current, record) == Parse(line, delimiter, false, "", [])
    {
      var c := line[pos];
      if !inQuotes && |current| == 0 && c == QUOTE {
        inQuotes := true;
      } else if inQuotes && c == QUOTE {
        if pos + 1 < |line| && line[pos + 1] == QUOTE {
          current := current + [c];
          pos := pos + 1;
        } else {
          inQuotes := false;
        }
      } else if !inQuotes && c == delimiter {
        record := record + [current];
        current := "";
      } else if !inQuotes && LineEnd(c) {
        record := record + [current];
        return;
      } else {
        current := current + [c];
      }
      pos := pos + 1;
    }
    record := record + [current];
  }

  // ---------- The writer ----------

  /** Doubles every quote. */
  function Escape(f: string): string {
    if f == "" then "" else (if f[0] == QUOTE then [QUOTE, QUOTE] else [f[0]]) + Escape(f[1..])
  }

  /** A field as written, within quotes or bare. */
  function Written(f: string, quoted: bool): string {
    if quoted then [QUOTE] + Escape(f) + [QUOTE] else f
  }

  /** The fields that may be written bare. */
  predicate MayBeBare(f: string, delimiter: char) {
    (f == "" || f[0] != QUOTE) && delimiter !in f && NUL !in f && '\r' !in f && '\n' !in f
  }

  function WriteLine(fields: seq<string>, quoted: seq<bool>, delimiter: char): string
    requires |fields| == |quoted| > 0
  {
    var w := Written(fields[0], quoted[0]);
    if |fields| == 1 then w else w + [delimiter] + WriteLine(fields[1..], quoted[1..], delimiter)
  }

  /** What may follow the written line: nothing, a line end or a NUL. */
  predicate Tail(tail: string, delimiter: char) {
    tail == "" || tail[0] == NUL || (LineEnd(tail[0]) && tail[0] != delimiter)
  }

  function UpToNul(f: string): string {
    if f == "" || f[0] == NUL then "" else [f[0]] + UpToNul(f[1..])
  }

  /** The fields up to the first NUL in any of them. */
  function CutAtNul(fields: seq<string>): seq<string> {
    if fields == [] then []
    else if NUL in fields[0] then [UpToNul(fields[0])]
    else [fields[0]] + CutAtNul(fields[1..])
  }

  lemma {:induction false} ParseQuoted(f: string, rest: string, delimiter: char, current: string, record: seq<string>)
    requires rest == "" || rest[0] != QUOTE
    ensures Parse(Escape(f) + [QUOTE] + rest, delimiter, true, current, record)
         == if NUL in f then record + [current + UpToNul(f)] else Parse(rest, delimiter, false, current + f, record)
  {
    var s := Escape(f) + [QUOTE] + rest;
    if f == "" {
      assert s[1..] == rest && current + f == current;
    } else if f[0] == NUL {
      assert current + UpToNul(f) == current;
    } else {
      var next := current + [f[0]];
      var k := if f[0] == QUOTE then 2 else 1;
      assert s[k..] == Escape(f[1..]) + [QUOTE] + rest;
      ParseQuoted(f[1..], rest, delimiter, next, record);
      assert next + f[1..] == current + f && next + UpToNul(f[1..]) == current + UpToNul(f);
      assert NUL in f <==> NUL in f[1..];
    }
  }

  lemma {:induction false} ParseBare(f: string, rest: string, delimiter: char, current: string, record: seq<string>)
    requires delimiter !in f && NUL !in f && '\r' !in f && '\n' !in f
    requires current != "" || f == "" || f[0] != QUOTE
    ensures Parse(f + rest, delimiter, false, current, record) == Parse(rest, delimiter, false, current + f, record)
  {
    if f == "" {
      assert f + rest == rest && current + f == current;
    } else {
      assert (f + rest)[1..] == f[1..] + rest;
      ParseBare(f[1..], rest, delimiter, current + [f[0]], record);
      assert current + [f[0]] + f[1..] == current + f;
    }
  }

  /** One written field, with whatever may come after it. */
  lemma {:induction false} ParseField(f: string, quoted: bool, rest: string, delimiter: char, record: seq<string>)
    requires delimiter != QUOTE && (quoted || MayBeBare(f, delimiter)) && (rest == "" || rest[0] != QUOTE)
    ensures Parse(Written(f, quoted) + rest, delimiter, false, "", record)
         == if NUL in f then record + [UpToNul(f)] else Parse(rest, delimiter, false, f, record)
  {
    if quoted {
      var s := Written(f, quoted) + rest;
      assert s[1..] == Escape(f) + [QUOTE] + rest;
      ParseQuoted(f, rest, delimiter, "", record);
      assert "" + f == f && "" + UpToNul(f) == UpToNul(f);
    } else {
      ParseBare(f, rest, delimiter, "", record);
      assert "" + f == f;
    }
  }

  /** Text behind a closing quote belongs to the field; delimiters and line ends before it do not end it. */
  lemma BehindQuote(f: string, g: string, rest: string, delimiter: char, record: seq<string>)
    requires delimiter != QUOTE && NUL !in f && MayBeBare(g, delimiter) && (g == "" ==> rest == "" || rest[0] != QUOTE)
    ensures Parse(Written(f, true) + g + rest, delimiter, false, "", record) == Parse(rest, delimiter, false, f + g, record)
  {
    assert Written(f, true) + g + rest == Written(f, true) + (g + rest);
    ParseField(f, true, g + rest, delimiter, record);
    ParseBare(g, rest, delimiter, f, record);
  }

  /** A quote that is not closed takes the rest of the line, line ends and all. */
  lemma {:induction false} Unclosed(f: string, delimiter: char, current: string, record: seq<string>)
    ensures Parse(Escape(f), delimiter, true, current, record) == record + [current + UpToNul(f)]
  {
    if f == "" || f[0] == NUL {
      assert current + UpToNul(f) == current;
    } else {
      var next := current + [f[0]];
      assert Escape(f)[if f[0] == QUOTE then 2 else 1..] == Escape(f[1..]);
      Unclosed(f[1..], delimiter, next, record);
      assert next + UpToNul(f[1..]) == current + UpToNul(f);
    }
  }

  lemma LineStops(f: string, tail: string, delimiter: char, record: seq<string>)
    requires delimiter != QUOTE && Tail(tail, delimiter)
    ensures Parse(tail, delimiter, false, f, record) == record + [f]
  {
  }

  lemma NextField(f: string, line: string, delimiter: char, record: seq<string>)
    requires delimiter != QUOTE && delimiter != NUL
    ensures Parse([delimiter] + line, delimiter, false, f, record) == Parse(line, delimiter, false, "", record + [f])
  {
    assert ([delimiter] + line)[1..] == line;
  }

  lemma {:induction false} ParseLine(fields: seq<string>, quoted: seq<bool>, tail: string, delimiter: char, record: seq<string>)
    requires |fields| == |quoted| > 0 && delimiter != QUOTE && delimiter != NUL && Tail(tail, delimiter)
    requires forall i :: 0 <= i < |fields| ==> quoted[i] || MayBeBare(fields[i], delimiter)
    ensures Parse(WriteLine(fields, quoted, delimiter) + tail, delimiter, false, "", record) == record + CutAtNul(fields)
  {
    hide MayBeBare, UpToNul, Written;
    var f := fields[0];
    assert quoted[0] || MayBeBare(fields[0], delimiter);
    if |fields| == 1 {
      assert WriteLine(fields, quoted, delimiter) == Written(f, quoted[0]);
      LineStops(f, tail, delimiter, record);
      hide Parse;
      ParseField(f, quoted[0], tail, delimiter, record);
      assert CutAtNul(fields[1..]) == [];
    } else {
      var line := WriteLine(fields[1..], quoted[1..], delimiter) + tail;
      var rest := [delimiter] + line;
      NextField(f, line, delimiter, record);
      hide Parse;
      ParseField(f, quoted[0], rest, delimiter, record);
      assert WriteLine(fields, quoted, delimiter) + tail == Written(f, quoted[0]) + rest;
      if NUL !in f {
        ParseLine(fields[1..], quoted[1..], tail, delimiter, record + [f]);
        assert record + [f] + CutAtNul(fields[1..]) == record + CutAtNul(fields);
      }
    }
  }

  lemma {:induction false} CutNothing(fields: seq<string>)
    ensures CutAtNul(fields) == fields <==> forall f :: f in fields ==> NUL !in f
  {
    if fields != [] {
      CutNothing(fields[1..]);
      assert fields == [fields[0]] + fields[1..];
      if NUL in fields[0] {
        NoNul(fields[0]);
      }
    }
  }

  lemma {:induction false} NoNul(f: string)
    ensures NUL !in UpToNul(f)
  {
    if f != "" && f[0] != NUL {
      NoNul(f[1..]);
    }
  }

  /**
    Parsing undoes writing, whichever of the fields that need no quotes are written bare, exactly
    for the records without a NUL.
   */
  lemma {:induction false} RoundTrip(fields: seq<string>, quoted: seq<bool>, tail: string, delimiter: char)
    requires |fields| == |quoted| > 0 && delimiter != QUOTE && delimiter != NUL && Tail(tail, delimiter)
    requires forall i :: 0 <= i < |fields| ==> quoted[i] || MayBeBare(fields[i], delimiter)
    ensures Parse(WriteLine(fields, quoted, delimiter) + tail, delimiter, false, "", []) == fields
       <==> forall f :: f in fields ==> NUL !in f
  {
    ParseLine(fields, quoted, tail, delimiter, []);
    CutNothing(fields);
  }
}
