/** CSV lines as the stores read and write them: `fgets` followed by the
    removal of one trailing newline, a `strtok_r` split on commas with space
    trimming, and a plain comma join with no quoting. Files are modelled by
    their contents: a stream is the text not yet read. */
module Csv {
  import opened Common

  // ---------------------------------------------------------------------------
  // csv_read_line

  /** How many characters `fgets` takes from `s` with room for `cap`
      characters: up to and including the first newline, at most `cap`. */
  function LineEnd(s: string, cap: nat): (n: nat)
    ensures n <= |s| && n <= cap
    ensures '\n' !in s[..n] || (n > 0 && s[n - 1] == '\n' && '\n' !in s[..n - 1])
    ensures n < |s| && n < cap ==> n > 0 && s[n - 1] == '\n'
  {
    var k := FirstIndex(s, '\n');
    if k >= 0 && k + 1 <= cap then
      assert s[..k + 1][..k] == s[..k];
      k + 1
    else
      var n := Min(|s|, cap);
      assert k >= 0 ==> k >= n;
      assert forall i :: 0 <= i < n ==> s[..n][i] == s[i];
      n
  }

  /** `fgets(buffer, size, file)` on the unread text `stream`: nothing at the
      end of the file; otherwise the next line, or its first `size - 1`
      characters when it is longer, and the text left unread. */
  function Fgets(stream: string, size: int): (r: Option<(string, string)>)
    requires size >= 2
    ensures r.None? <==> stream == []
    ensures r.Some? ==> r.value.0 + r.value.1 == stream && 0 < |r.value.0| <= size - 1
  {
    if stream == [] then None
    else
      var n := LineEnd(stream, size - 1);
      assert n > 0 by {
        if stream[0] == '\n' { assert FirstIndex(stream, '\n') == 0; }
      }
      assert stream[..n] + stream[n..] == stream;
      Some((stream[..n], stream[n..]))
  }

  /** The newline strip of `csv_read_line`: one trailing '\n' goes. */
  function StripNewline(line: string): (r: string)
    ensures |r| <= |line| && r == line[..|r|]
    ensures |r| < |line| ==> |r| == |line| - 1 && line[|r|] == '\n'
  {
    if |line| > 0 && line[|line| - 1] == '\n' then line[..|line| - 1] else line
  }

  /** Exactly one newline is removed, whatever precedes it. */
  lemma StripOneNewline(s: string)
    ensures StripNewline(s + "\n") == s
    ensures StripNewline(s + "\n\n") == s + "\n"
  {
    assert (s + "\n\n")[..|s| + 1] == s + "\n";
  }

  /** A line without a final newline is left as it is. */
  lemma StripKeepsOtherLines(s: string)
    requires s == [] || s[|s| - 1] != '\n'
    ensures StripNewline(s) == s
  {
  }

  /** `csv_read_line`: the line `fgets` reads, without its newline. */
  function ReadLine(stream: string, size: int): (r: Option<(string, string)>)
    requires size >= 2
    ensures r.None? <==> stream == []
    ensures r.Some? ==> '\n' !in r.value.0
  {
    match Fgets(stream, size)
    case None => None
    case Some((line, rest)) =>
      var n := LineEnd(stream, size - 1);
      assert line == stream[..n];
      Some((StripNewline(line), rest))
  }

  // ---------------------------------------------------------------------------
  // csv_parse_line

  /** Length of the run of non-comma characters that starts `s`. */
  function RunLength(s: string): (n: nat)
    ensures n <= |s| && ',' !in s[..n]
    ensures n < |s| ==> s[n] == ','
  {
    if s == [] || s[0] == ',' then 0
    else
      var n := RunLength(s[1..]);
      assert s[..n + 1] == [s[0]] + s[1..][..n];
      n + 1
  }

  /** A run that ends at a comma or at the end is the run `RunLength` measures. */
  lemma {:induction false} RunLengthAt(s: string, n: nat)
    requires n <= |s| && ',' !in s[..n] && (n < |s| ==> s[n] == ',')
    ensures RunLength(s) == n
  {
    if n > 0 {
      assert s[..n] == [s[0]] + s[1..][..n - 1];
      RunLengthAt(s[1..], n - 1);
    }
  }

  /** `strtok_r` skips a comma in front. */
  lemma TokensAtComma(s: string)
    requires s != [] && s[0] == ','
    ensures Tokens(s) == Tokens(s[1..])
  {
  }

  /** `strtok_r` cuts a run of `n` non-comma characters ending at a comma or
      at the end. */
  lemma TokensAtRun(s: string, n: nat)
    requires 0 < n <= |s| && ',' !in s[..n] && (n < |s| ==> s[n] == ',')
    ensures Tokens(s) == [s[..n]] + Tokens(s[n..])
  {
    assert s[0] == s[..n][0];
    RunLengthAt(s, n);
  }

  /** The tokens `strtok_r(…, ",", …)` returns in turn: the maximal runs of
      non-comma characters, so empty pieces between commas do not appear. */
  function Tokens(s: string): (ts: seq<string>)
    decreases |s|
  {
    if s == [] then []
    else if s[0] == ',' then Tokens(s[1..])
    else
      var n := RunLength(s);
      [s[..n]] + Tokens(s[n..])
  }

  /** Every token is non-empty and comma-free. */
  lemma {:induction false} TokensShape(s: string)
    ensures forall t :: t in Tokens(s) ==> t != [] && ',' !in t
    decreases |s|
  {
    if s != [] {
      if s[0] == ',' {
        TokensShape(s[1..]);
      } else {
        var n := RunLength(s);
        assert s[..n][0] == s[0];
        TokensShape(s[n..]);
      }
    }
  }

  /** The leading-space loop of `csv_parse_line`. */
  function TrimLeading(s: string): (r: string)
    ensures |r| <= |s|
    decreases |s|
  {
    if s != [] && s[0] == ' ' then TrimLeading(s[1..]) else s
  }

  /** The trailing-space-and-carriage-return loop of `csv_parse_line`. */
  function TrimTrailing(s: string): (r: string)
    ensures |r| <= |s|
    decreases |s|
  {
    if s != [] && (s[|s| - 1] == ' ' || s[|s| - 1] == '\r') then TrimTrailing(s[..|s| - 1]) else s
  }

  /** Leading trimming drops a prefix of spaces and leaves a string that does
      not start with one. */
  lemma {:induction false} TrimLeadingSpec(s: string)
    ensures var r := TrimLeading(s);
            r == s[|s| - |r|..] && (forall k :: 0 <= k < |s| - |r| ==> s[k] == ' ') && (r == [] || r[0] != ' ')
    decreases |s|
  {
    if s != [] && s[0] == ' ' {
      TrimLeadingSpec(s[1..]);
      var r := TrimLeading(s[1..]);
      assert s[1..][|s| - 1 - |r|..] == s[|s| - |r|..];
      forall k | 0 <= k < |s| - |r| ensures s[k] == ' ' {
        if k > 0 {
          assert s[k] == s[1..][k - 1];
        }
      }
    }
  }

  /** Trailing trimming drops a suffix of spaces and carriage returns and
      leaves a string that ends in neither. */
  lemma {:induction false} TrimTrailingSpec(s: string)
    ensures var r := TrimTrailing(s);
            r == s[..|r|] && (forall k :: |r| <= k < |s| ==> s[k] == ' ' || s[k] == '\r') &&
            (r == [] || (r[|r| - 1] != ' ' && r[|r| - 1] != '\r'))
    decreases |s|
  {
    if s != [] && (s[|s| - 1] == ' ' || s[|s| - 1] == '\r') {
      var q := s[..|s| - 1];
      TrimTrailingSpec(q);
      var r := TrimTrailing(q);
      assert q[..|r|] == s[..|r|];
      forall k | |r| <= k < |s| ensures s[k] == ' ' || s[k] == '\r' {
        if k < |q| {
          assert s[k] == q[k];
        }
      }
    }
  }

  /** A field as `csv_parse_line` stores it. */
  function TrimField(token: string): string
  {
    TrimTrailing(TrimLeading(token))
  }

  /** A string trimming leaves unchanged: empty, or neither starting with a
      space nor ending with a space or carriage return. */
  predicate Trimmed(s: string)
  {
    s == [] || (s[0] != ' ' && s[|s| - 1] != ' ' && s[|s| - 1] != '\r')
  }

  /** Trimming keeps a contiguous piece of the token, drops only spaces in
      front and spaces or carriage returns behind (tabs and inner spaces
      stay), and yields a trimmed field. */
  lemma TrimFieldSpec(token: string)
    ensures var r := TrimField(token);
            var i := |token| - |TrimLeading(token)|;
            i + |r| <= |token| && r == token[i..i + |r|] &&
            (forall k :: 0 <= k < i ==> token[k] == ' ') &&
            (forall k :: i + |r| <= k < |token| ==> token[k] == ' ' || token[k] == '\r') &&
            Trimmed(r)
  {
    var l := TrimLeading(token);
    TrimLeadingSpec(token);
    TrimTrailingSpec(l);
    var r := TrimTrailing(l);
    var i := |token| - |l|;
    assert r == token[i..i + |r|] by {
      assert r == l[..|r|] && l == token[i..];
    }
    forall k | i + |r| <= k < |token| ensures token[k] == ' ' || token[k] == '\r' {
      assert token[k] == l[k - i];
    }
    assert r != [] ==> r[0] == l[0];
  }

  /** A trimmed token is kept whole. */
  lemma TrimKeepsTrimmed(token: string)
    requires Trimmed(token)
    ensures TrimField(token) == token
  {
    if token != [] {
      assert TrimLeading(token) == token;
    }
  }

  /** Trimming twice is trimming once. */
  lemma TrimIdempotent(token: string)
    ensures TrimField(TrimField(token)) == TrimField(token)
  {
    TrimFieldSpec(token);
    TrimKeepsTrimmed(TrimField(token));
  }

  /** The fields `csv_parse_line(line, fields, max)` stores: the first `max`
      tokens, trimmed; nothing for max <= 0. */
  function ParseSpec(line: string, max: int): seq<string>
  {
    Take(MapSeq(Tokens(line), TrimField), max)
  }

  /** At most `max` fields, each trimmed; all tokens are taken when there are
      no more than `max` of them. */
  lemma ParseBounds(line: string, max: int)
    ensures var r := ParseSpec(line, max);
            |r| <= (if max <= 0 then 0 else max) && (forall f :: f in r ==> Trimmed(f)) &&
            (0 <= |Tokens(line)| <= max ==> |r| == |Tokens(line)|)
  {
    var r := ParseSpec(line, max);
    forall f | f in r ensures Trimmed(f) {
      var k :| 0 <= k < |r| && r[k] == f;
      TrimFieldSpec(Tokens(line)[k]);
    }
  }

  /** The fields the parse loop stores, step by step: a comma is skipped,
      a run is trimmed and stored while there is room. */
  function Parsed(s: string, max: int): (r: seq<string>)
    decreases |s|
  {
    if s == [] || max <= 0 then []
    else if s[0] == ',' then Parsed(s[1..], max)
    else
      var n := RunLength(s);
      [TrimField(s[..n])] + Parsed(s[n..], max - 1)
  }

  /** The step-by-step parse stores exactly the first `max` trimmed tokens. */
  lemma {:induction false} ParsedIsTrimmedTokens(s: string, max: int)
    ensures Parsed(s, max) == ParseSpec(s, max)
    decreases |s|
  {
    if s != [] && max > 0 {
      if s[0] == ',' {
        TokensAtComma(s);
        ParsedIsTrimmedTokens(s[1..], max);
      } else {
        var n := RunLength(s);
        TokensAtRun(s, n);
        var all := MapSeq(Tokens(s), TrimField);
        assert all == [TrimField(s[..n])] + MapSeq(Tokens(s[n..]), TrimField);
        ParsedIsTrimmedTokens(s[n..], max - 1);
      }
    }
  }

  /** A comma in front is skipped. */
  lemma ParseAtComma(line: string, pos: nat, m: int)
    requires pos < |line| && line[pos] == ','
    ensures Parsed(line[pos..], m) == Parsed(line[pos + 1..], m)
  {
    assert line[pos..][1..] == line[pos + 1..];
  }

  /** A run in front becomes the first field while there is room. */
  lemma ParseAtRun(line: string, pos: nat, end: nat, m: int)
    requires pos < end <= |line| && ',' !in line[pos..end] && (end < |line| ==> line[end] == ',') && m >= 1
    ensures Parsed(line[pos..], m) == [TrimField(line[pos..end])] + Parsed(line[end..], m - 1)
  {
    var s := line[pos..];
    var n := end - pos;
    assert s[..n] == line[pos..end];
    assert s[n..] == line[end..];
    assert s[0] == s[..n][0];
    RunLengthAt(s, n);
  }

  /** One step of the leading-space loop. */
  lemma LeadingAt(token: string, start: nat)
    requires start <= |token|
    ensures TrimLeading(token[start..]) ==
            if start < |token| && token[start] == ' ' then TrimLeading(token[start + 1..]) else token[start..]
  {
    if start < |token| {
      assert token[start..][1..] == token[start + 1..];
    }
  }

  /** One step of the trailing loop. */
  lemma TrailingAt(token: string, start: nat, len: nat)
    requires start <= len <= |token|
    ensures TrimTrailing(token[start..len]) ==
            if len > start && (token[len - 1] == ' ' || token[len - 1] == '\r') then TrimTrailing(token[start..len - 1])
            else token[start..len]
  {
    if len > start {
      assert token[start..len][len - 1 - start] == token[len - 1];
      assert token[start..len][..len - 1 - start] == token[start..len - 1];
    }
  }

  /** The trim loops of `csv_parse_line`, on one token. */
  method TrimToken(token: string) returns (r: string)
    ensures r == TrimField(token)
  {
    var start := 0;
    while start < |token| && token[start] == ' '
      invariant 0 <= start <= |token|
      invariant TrimLeading(token[start..]) == TrimLeading(token)
    {
      LeadingAt(token, start);
      start := start + 1;
    }
    LeadingAt(token, start);
    var len := |token|;
    assert token[start..len] == token[start..];
    while len > start && (token[len - 1] == ' ' || token[len - 1] == '\r')
      invariant start <= len <= |token|
      invariant TrimTrailing(token[start..len]) == TrimField(token)
    {
      TrailingAt(token, start, len);
      len := len - 1;
    }
    TrailingAt(token, start, len);
    r := token[start..len];
  }

  /** The scan of `strtok_r` for the comma that ends the token at `pos`. */
  method RunEnd(line: string, pos: nat) returns (end: nat)
    requires pos < |line| && line[pos] != ','
    ensures pos < end <= |line| && ',' !in line[pos..end] && (end < |line| ==> line[end] == ',')
  {
    end := pos;
    while end < |line| && line[end] != ','
      invariant pos <= end <= |line|
      invariant ',' !in line[pos..end]
    {
      assert line[pos..end + 1] == line[pos..end] + [line[end]];
      end := end + 1;
    }
  }

  /** What the parse loop keeps: the fields stored so far followed by the
      parse of the unread rest are the parse of the whole line. */
  ghost predicate ParsedSoFar(line: string, max: int, pos: int, fields: seq<string>)
  {
    0 <= pos <= |line| && (fields == [] || |fields| <= max) &&
    fields + Parsed(line[pos..], max - |fields|) == Parsed(line, max)
  }

  /** Storing the trimmed run at `pos` keeps the loop's invariant. */
  lemma ParsedRun(line: string, max: int, pos: nat, end: nat, fields: seq<string>)
    requires ParsedSoFar(line, max, pos, fields) && |fields| < max
    requires pos < end <= |line| && ',' !in line[pos..end] && (end < |line| ==> line[end] == ',')
    ensures ParsedSoFar(line, max, end, fields + [TrimField(line[pos..end])])
  {
    var m := max - |fields|;
    ParseAtRun(line, pos, end, m);
    var later := Parsed(line[end..], m - 1);
    var token := TrimField(line[pos..end]);
    assert fields + [token] + later == fields + ([token] + later);
  }

  /** At the end of the line or with no room left nothing more is stored. */
  lemma ParsedAll(line: string, max: int, pos: nat, fields: seq<string>)
    requires ParsedSoFar(line, max, pos, fields) && (pos == |line| || |fields| >= max)
    ensures fields == Parsed(line, max)
  {
    assert pos == |line| ==> line[pos..] == [];
  }

  /** `csv_parse_line`: the `strtok_r` loop, skipping commas, cutting the
      next run, trimming it and storing it while there is room. */
  method ParseLine(line: string, maxFields: int) returns (fields: seq<string>)
    ensures fields == ParseSpec(line, maxFields)
  {
    fields := [];
    var pos := 0;
    while pos < |line| && |fields| < maxFields
      invariant ParsedSoFar(line, maxFields, pos, fields)
      decreases |line| - pos
    {
      if line[pos] == ',' {
        ParseAtComma(line, pos, maxFields - |fields|);
        pos := pos + 1;
      } else {
        var end := RunEnd(line, pos);
        var token := TrimToken(line[pos..end]);
        ParsedRun(line, maxFields, pos, end, fields);
        fields := fields + [token];
        pos := end;
      }
    }
    ParsedAll(line, maxFields, pos, fields);
    ParsedIsTrimmedTokens(line, maxFields);
  }

  // ---------------------------------------------------------------------------
  // csv_write_line

  /** The fields separated by commas, with no quoting. */
  function Joined(fields: seq<string>): string
  {
    if fields == [] then []
    else if |fields| == 1 then fields[0]
    else fields[0] + "," + Joined(fields[1..])
  }

  /** `csv_write_line`: nothing for no fields; otherwise the joined fields
      and a newline. */
  function WriteLine(fields: seq<string>): (r: Option<string>)
    ensures r.None? <==> fields == []
    ensures r.Some? ==> |r.value| > 0 && r.value[|r.value| - 1] == '\n'
  {
    if fields == [] then None else Some(Joined(fields) + "\n")
  }

  /** A field the format carries unchanged. */
  predicate Plain(f: string)
  {
    f != [] && ',' !in f && Trimmed(f)
  }

  /** Non-empty comma-free fields come back as the tokens of their join. */
  lemma {:induction false} TokensOfJoined(fields: seq<string>)
    requires forall f :: f in fields ==> f != [] && ',' !in f
    ensures Tokens(Joined(fields)) == fields
    decreases |fields|
  {
    if fields != [] {
      var f := fields[0];
      assert f in fields;
      assert f[0] != ',' by { assert f[0] in f; }
      if |fields| == 1 {
        assert f[..|f|] == f;
        TokensAtRun(f, |f|);
        assert f[|f|..] == [];
      } else {
        var rest := Joined(fields[1..]);
        var s := f + "," + rest;
        assert s[..|f|] == f;
        RunLengthAt(s, |f|);
        assert s[|f|..] == "," + rest;
        assert ("," + rest)[1..] == rest;
        assert forall g :: g in fields[1..] ==> g in fields;
        TokensOfJoined(fields[1..]);
      }
    }
  }

  /** Parsing a written line, after the newline strip, gives back the
      fields when each is non-empty, comma-free and trimmed and they fit. */
  lemma ParseWriteRoundTrip(fields: seq<string>, max: int)
    requires fields != [] && |fields| <= max
    requires forall f :: f in fields ==> Plain(f)
    ensures ParseSpec(StripNewline(WriteLine(fields).value), max) == fields
  {
    StripOneNewline(Joined(fields));
    TokensOfJoined(fields);
    var m := MapSeq(fields, TrimField);
    forall k | 0 <= k < |fields| ensures m[k] == fields[k] {
      assert fields[k] in fields;
      TrimKeepsTrimmed(fields[k]);
    }
  }

  /** The written line ends at its own newline. */
  lemma {:induction false} NoNewlineInJoined(fields: seq<string>)
    requires forall f :: f in fields ==> '\n' !in f
    ensures '\n' !in Joined(fields)
    decreases |fields|
  {
    if |fields| > 1 {
      assert fields[0] in fields;
      assert forall g :: g in fields[1..] ==> g in fields;
      NoNewlineInJoined(fields[1..]);
    } else if |fields| == 1 {
      assert fields[0] in fields;
    }
  }

  /** A written line that fits the read buffer is read back whole, without
      its newline, and the rest of the file stays unread. */
  lemma ReadWriteRoundTrip(fields: seq<string>, rest: string, size: int)
    requires fields != [] && size >= 2
    requires forall f :: f in fields ==> '\n' !in f
    requires |WriteLine(fields).value| <= size - 1
    ensures ReadLine(WriteLine(fields).value + rest, size) == Some((Joined(fields), rest))
  {
    var j := Joined(fields);
    var stream := j + "\n" + rest;
    NoNewlineInJoined(fields);
    assert stream[|j|] == '\n';
    assert stream[..|j|] == j;
    FirstIndexAt(stream, '\n', |j|);
    assert stream[..|j| + 1] == j + "\n";
    assert stream[|j| + 1..] == rest;
    StripOneNewline(j);
  }

  /** The characters of the fields plus one per field. */
  function Width(fields: seq<string>): nat
  {
    if fields == [] then 0 else |fields[0]| + 1 + Width(fields[1..])
  }

  /** A written line holds the fields and one comma or newline after each,
      nothing more. */
  lemma {:induction false} WrittenWidth(fields: seq<string>)
    requires fields != []
    ensures |WriteLine(fields).value| == Width(fields)
    decreases |fields|
  {
    if |fields| > 1 {
      WrittenWidth(fields[1..]);
    }
  }

  /** A line written to a file is read and parsed back into the same
      fields, and the next read starts right after it, when the fields are
      plain, have no newline, fit the field array and the line fits the
      read buffer. */
  lemma FileRoundTrip(fields: seq<string>, rest: string, size: int, max: int)
    requires fields != [] && size >= 2 && |fields| <= max
    requires forall f :: f in fields ==> Plain(f) && '\n' !in f
    requires |WriteLine(fields).value| <= size - 1
    ensures var r := ReadLine(WriteLine(fields).value + rest, size);
            r.Some? && r.value.1 == rest && ParseSpec(r.value.0, max) == fields
  {
    ReadWriteRoundTrip(fields, rest, size);
    ParseWriteRoundTrip(fields, max);
    StripOneNewline(Joined(fields));
  }

  /** The two rows the module's own test writes. */
  const HeaderRow: seq<string> := ["campo1", "campo2", "campo3"]
  const ValueRow: seq<string> := ["valor1", "valor com vírgula", "valor3"]

  lemma TestRowsPlain()
    ensures forall f :: f in HeaderRow ==> Plain(f) && '\n' !in f
    ensures forall f :: f in ValueRow ==> Plain(f) && '\n' !in f
  {
  }

  /** Both rows written and read back as the module's own test does. */
  lemma WrittenLinesReadBack()
    ensures var file := WriteLine(HeaderRow).value + WriteLine(ValueRow).value;
            var first := ReadLine(file, 1024);
            first.Some? && ParseSpec(first.value.0, 10) == HeaderRow &&
            ReadLine(first.value.1, 1024).Some? && ParseSpec(ReadLine(first.value.1, 1024).value.0, 10) == ValueRow
  {
    TestRowsPlain();
    WrittenWidth(HeaderRow);
    WrittenWidth(ValueRow);
    assert Width(HeaderRow) <= 1023 by {
      assert HeaderRow[1..] == ["campo2", "campo3"] && HeaderRow[1..][1..] == ["campo3"] && HeaderRow[1..][1..][1..] == [];
    }
    assert Width(ValueRow) <= 1023 by {
      assert ValueRow[1..] == ["valor com vírgula", "valor3"] && ValueRow[1..][1..] == ["valor3"] && ValueRow[1..][1..][1..] == [];
    }
    FileRoundTrip(HeaderRow, WriteLine(ValueRow).value, 1024, 10);
    FileRoundTrip(ValueRow, [], 1024, 10);
    assert WriteLine(ValueRow).value + [] == WriteLine(ValueRow).value;
  }

  /** Empty pieces between, before and after commas vanish. */
  lemma ParseDropsEmptyPieces()
    ensures ParseSpec(",a,,b,", 10) == ["a", "b"]
  {
    assert ",a,,b,"[1..] == "a,,b," && "a,,b,"[..1] == "a" && "a,,b,"[1..] == ",,b,";
    assert ",,b,"[1..] == ",b," && ",b,"[1..] == "b," && "b,"[..1] == "b" && "b,"[1..] == "," && ","[1..] == [];
    TokensAtComma(",a,,b,");
    TokensAtRun("a,,b,", 1);
    TokensAtComma(",,b,");
    TokensAtComma(",b,");
    TokensAtRun("b,", 1);
    TokensAtComma(",");
    assert Tokens(",a,,b,") == ["a", "b"];
    assert MapSeq(["a", "b"], TrimField) == ["a", "b"];
  }

  /** A piece of spaces only is kept, as an empty field. */
  lemma ParseBlankPiece()
    ensures ParseSpec("a, ,b", 10) == ["a", "", "b"]
  {
    assert "a, ,b"[..1] == "a" && "a, ,b"[1..] == ", ,b" && ", ,b"[1..] == " ,b";
    assert " ,b"[..1] == " " && " ,b"[1..] == ",b" && ",b"[1..] == "b" && "b"[..1] == "b" && "b"[1..] == [];
    TokensAtRun("a, ,b", 1);
    TokensAtComma(", ,b");
    TokensAtRun(" ,b", 1);
    TokensAtComma(",b");
    TokensAtRun("b", 1);
    assert Tokens("a, ,b") == ["a", " ", "b"];
    assert TrimLeading(" ") == "" by { assert " "[1..] == []; }
    assert MapSeq(["a", " ", "b"], TrimField) == ["a", "", "b"];
  }

  /** A leading space does not survive a write and a read: the format
      carries only plain fields unchanged. */
  lemma LeadingSpaceLost()
    ensures ParseSpec(StripNewline(WriteLine([" a"]).value), 10) == ["a"]
  {
    assert WriteLine([" a"]).value == " a" + "\n";
    StripOneNewline(" a");
    assert " a"[..2] == " a" && " a"[2..] == [];
    TokensAtRun(" a", 2);
    assert Tokens(" a") == [" a"];
    assert TrimLeading(" a") == "a" by { assert " a"[1..] == "a"; }
    assert MapSeq([" a"], TrimField) == ["a"];
  }
}
