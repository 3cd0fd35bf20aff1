/** The entry parser of pass2csv: the decrypted text of one secret file becomes an
    `Entry` whose password is the first line and whose additional field is every
    later line, each followed by the delimiter. */
module Entries {
  import opened TextLines
  import opened Whitespace

  /** `Pass2CSVError`: the only way parsing can fail. */
  datatype ParseError = NoPassword

  datatype Result<T> = Ok(value: T) | Err(error: ParseError)

  /** One row of the export; the fields are the CSV columns, in order. */
  datatype Entry = Entry(password: string, additional: string, filePath: string)

  /** `parse_password`: takes the next line off the line iterator (the iterator is the
      sequence of lines not yet taken); fails with `NoPassword` when there is none. */
  function ParsePassword(lines: seq<string>): (r: Result<(string, seq<string>)>)
    ensures r.Err? <==> lines == []
    ensures r.Err? ==> r.error == NoPassword
    ensures r.Ok? ==> [r.value.0] + r.value.1 == lines
  {
    if lines == [] then Err(NoPassword) else Ok((lines[0], lines[1..]))
  }

  /** Sum of the lengths of `ls`. */
  function TotalLength(ls: seq<string>): nat
  {
    if ls == [] then 0 else |ls[0]| + TotalLength(ls[1..])
  }

  /** `parse_additional`: every remaining line with the delimiter pushed onto it,
      collected into one string, that is, the lines terminated by the delimiter. */
  function ParseAdditional(lines: seq<string>, delimiter: string): string
  {
    Terminated(lines, delimiter)
  }

  /** `Entry::new`: fails exactly when the content has no line (the empty text);
      otherwise the password is a first line of the content, holding no line break,
      and the path is kept as given. */
  function New(content: string, filePath: string, delimiter: string): (r: Result<Entry>)
    ensures r.Err? <==> content == []
    ensures r.Err? ==> r.error == NoPassword
    ensures r.Ok? ==> r.value.filePath == filePath
    ensures r.Ok? ==> r.value.password <= content && '\n' !in r.value.password
  {
    match ParsePassword(Lines(content))
    case Err(e) => Err(e)
    case Ok((password, rest)) => Ok(Entry(password, ParseAdditional(rest, delimiter), filePath))
  }

  /** The trim-then-parse step of `Entry::from_file`, on the decrypted text.
      It fails exactly when that text is whitespace only; otherwise the password is
      never empty and never starts with whitespace. */
  function FromDecrypted(decrypted: string, filePath: string, delimiter: string): (r: Result<Entry>)
    ensures r.Err? <==> AllWhitespace(decrypted)
    ensures r.Err? ==> r.error == NoPassword
    ensures r.Ok? ==> r.value.filePath == filePath
    ensures r.Ok? ==> r.value.password != [] && !IsWhitespace(r.value.password[0])
  {
    var content := Trim(decrypted);
    var r := New(content, filePath, delimiter);
    assert content != [] ==> content[0] != '\n' && content[0] != '\r';
    if content == [] then r else FirstLineStart(content); r
  }

  // ---------------------------------------------------------------------------
  // The additional field

  /** Collecting distributes over splitting the lines. */
  lemma {:induction false} AdditionalAppend(a: seq<string>, b: seq<string>, delimiter: string)
    ensures ParseAdditional(a + b, delimiter) == ParseAdditional(a, delimiter) + ParseAdditional(b, delimiter)
  {
    if a == [] {
      assert a + b == b;
    } else {
      assert (a + b)[1..] == a[1..] + b;
      AdditionalAppend(a[1..], b, delimiter);
      assert Terminated(a + b, delimiter) == a[0] + delimiter + Terminated(a[1..] + b, delimiter);
    }
  }

  /** Where line `k` lands: after the field of the earlier lines (whose length
      `AdditionalLength` gives), the line itself appears verbatim and the delimiter
      right after it (so a blank line contributes exactly the delimiter). */
  lemma AdditionalAt(lines: seq<string>, delimiter: string, k: nat)
    requires k < |lines|
    ensures var r := ParseAdditional(lines, delimiter);
            var o := |ParseAdditional(lines[..k], delimiter)|;
            var e := o + |lines[k]|;
            e + |delimiter| <= |r| && r[o..e] == lines[k] && r[e..e + |delimiter|] == delimiter
  {
    var before, line, after := lines[..k], lines[k], lines[k + 1..];
    var p, q := ParseAdditional(before, delimiter), ParseAdditional(after, delimiter);
    assert ParseAdditional(lines, delimiter) == p + line + (delimiter + q) by {
      assert lines == before + [line] + after;
      AdditionalAppend(before + [line], after, delimiter);
      AdditionalAppend(before, [line], delimiter);
      assert [line][1..] == [];
      assert ParseAdditional([line], delimiter) == line + delimiter + Terminated([], delimiter);
    }
    SliceBetween(p, line, delimiter + q);
    assert (delimiter + q)[..|delimiter|] == delimiter;
  }

  /** The middle part of a three-part concatenation, cut out again. */
  lemma SliceBetween(a: string, b: string, c: string)
    ensures (a + b + c)[|a|..|a| + |b|] == b && (a + b + c)[|a| + |b|..] == c
  {
  }

  /** The delimiter follows the last line too: it ends the field rather than separating lines. */
  lemma AdditionalEndsWithDelimiter(lines: seq<string>, delimiter: string)
    requires lines != []
    ensures var r := ParseAdditional(lines, delimiter);
            |delimiter| <= |r| && r[|r| - |delimiter|..] == delimiter
  {
    var n := |lines|;
    var init, last := lines[..n - 1], lines[n - 1];
    assert lines == init + [last];
    AdditionalAppend(init, [last], delimiter);
    assert [last][1..] == [];
    assert ParseAdditional([last], delimiter) == last + delimiter + Terminated([], delimiter);
    var r := ParseAdditional(lines, delimiter);
    assert r == ParseAdditional(init, delimiter) + last + delimiter;
  }

  /** The field is as long as all the lines together plus one delimiter per line. */
  lemma {:induction false} AdditionalLength(lines: seq<string>, delimiter: string)
    ensures |ParseAdditional(lines, delimiter)| == TotalLength(lines) + |lines| * |delimiter|
  {
    if lines != [] {
      AdditionalLength(lines[1..], delimiter);
    }
  }

  /** The pieces of `s`, each ended by `c`; a last piece without `c` is kept as well. */
  function SplitTerminated(s: string, c: char): seq<string>
    decreases |s|
  {
    if s == [] then []
    else
      var i := Find(s, c);
      [s[..i]] + (if i < |s| then SplitTerminated(s[i + 1..], c) else [])
  }

  /** With a one-character delimiter that occurs in no line, the lines can be read
      back from the field. */
  lemma {:induction false} AdditionalSplitsBack(lines: seq<string>, c: char)
    requires forall k :: 0 <= k < |lines| ==> c !in lines[k]
    ensures SplitTerminated(ParseAdditional(lines, [c]), c) == lines
  {
    if lines != [] {
      var a := lines[0];
      var rest := ParseAdditional(lines[1..], [c]);
      var s := a + [c] + rest;
      assert ParseAdditional(lines, [c]) == s;
      assert c !in a;
      FindAfter(a, c, rest);
      assert s[..|a|] == a;
      assert s[|a| + 1..] == rest;
      AdditionalSplitsBack(lines[1..], c);
    }
  }

  /** The delimiter is neither escaped nor checked: a line that contains it cannot be
      told apart from two lines. */
  lemma DelimiterInsideLineIsAmbiguous()
    ensures ParseAdditional(["a;b"], ";") == ParseAdditional(["a", "b"], ";")
  {
  }

  // ---------------------------------------------------------------------------
  // Entry::new against the text it parses

  /** Round trip: lines joined by '\n' parse back into the first line as password and
      the others, each followed by the delimiter, as additional field (the last line
      must not be empty, or `lines` drops it). */
  lemma NewOfJoined(ls: seq<string>, filePath: string, delimiter: string)
    requires ls != [] && ls[|ls| - 1] != []
    requires forall k :: 0 <= k < |ls| ==> PlainLine(ls[k])
    ensures New(Joined(ls), filePath, delimiter) == Ok(Entry(ls[0], ParseAdditional(ls[1..], delimiter), filePath))
  {
    LinesOfJoined(ls);
  }

  /** Round trip: lines each followed by '\n' (the last one too) parse back the same way. */
  lemma NewOfTerminated(ls: seq<string>, filePath: string, delimiter: string)
    requires ls != []
    requires forall k :: 0 <= k < |ls| ==> PlainLine(ls[k])
    ensures New(Terminated(ls, "\n"), filePath, delimiter) == Ok(Entry(ls[0], ParseAdditional(ls[1..], delimiter), filePath))
  {
    LinesOfTerminated(ls);
  }

  /** A content of one line gives that line as password and an empty additional field. */
  lemma NewOneLine(content: string, filePath: string, delimiter: string)
    requires PlainLine(content) && content != []
    ensures New(content, filePath, delimiter) == Ok(Entry(content, [], filePath))
  {
    LinesOfOneLine(content);
  }

  /** On success the password is the first line, and the additional field holds all
      later lines plus one delimiter per later line. */
  lemma NewFields(content: string, filePath: string, delimiter: string)
    requires content != []
    ensures var r := New(content, filePath, delimiter);
            var ls := Lines(content);
            r.Ok? && r.value.password == ls[0]
            && |r.value.additional| == TotalLength(ls[1..]) + (|ls| - 1) * |delimiter|
            && (|ls| == 1 ==> r.value.additional == [])
  {
    AdditionalLength(Lines(content)[1..], delimiter);
  }
}
