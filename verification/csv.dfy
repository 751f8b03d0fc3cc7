/** CSVQuestionLoader: turning the lines of a delimited text file into
    questions. Reading the file is left to the caller, who passes its lines
    (or None when the file does not exist or cannot be read). */
module CsvLoader {
  import opened Wrappers
  import opened Text
  import opened Questions

  // ------------------------------------------------------------ splitting

  /** The character loop of splitCsvLine, from some position on: `inQuotes`
      is the quoting state and `cur` the field being built. A quote inside a
      quoted region followed by another quote is an escaped quote; any other
      quote toggles quoting and is dropped; an unquoted comma ends a field. */
  function Scan(rest: string, inQuotes: bool, cur: string): (r: seq<string>)
    ensures |r| >= 1
    decreases |rest|
  {
    if |rest| == 0 then [cur]
    else if rest[0] == '"' then
      if inQuotes && |rest| > 1 && rest[1] == '"' then Scan(rest[2..], true, cur + ['"'])
      else Scan(rest[1..], !inQuotes, cur)
    else if rest[0] == ',' && !inQuotes then [cur] + Scan(rest[1..], false, "")
    else Scan(rest[1..], inQuotes, cur + [rest[0]])
  }

  function SplitCsvLine(line: string): (r: seq<string>)
    ensures |r| == 1 + Separators(line, false)
  {
    ScanCountsSeparators(line, false, "");
    Scan(line, false, "")
  }

  /** Reference count of field separators: a comma is a separator when an
      even number of quote characters precede it (escaped quotes come in
      pairs, so they never change the parity). */
  function Separators(rest: string, odd: bool): nat
    decreases |rest|
  {
    if |rest| == 0 then 0
    else if rest[0] == '"' then Separators(rest[1..], !odd)
    else if rest[0] == ',' && !odd then 1 + Separators(rest[1..], odd)
    else Separators(rest[1..], odd)
  }

  lemma {:induction false} ScanCountsSeparators(rest: string, inQuotes: bool, cur: string)
    ensures |Scan(rest, inQuotes, cur)| == 1 + Separators(rest, inQuotes)
    decreases |rest|
  {
    if |rest| > 0 {
      if rest[0] == '"' {
        if inQuotes && |rest| > 1 && rest[1] == '"' {
          ScanCountsSeparators(rest[2..], true, cur + ['"']);
          assert rest[1..][1..] == rest[2..];
        } else {
          ScanCountsSeparators(rest[1..], !inQuotes, cur);
        }
      } else if rest[0] == ',' && !inQuotes {
        ScanCountsSeparators(rest[1..], false, "");
      } else {
        ScanCountsSeparators(rest[1..], inQuotes, cur + [rest[0]]);
      }
    }
  }

  /** Fields joined back with commas. */
  function Join(fields: seq<string>): string
    requires |fields| >= 1
  {
    if |fields| == 1 then fields[0] else fields[0] + "," + Join(fields[1..])
  }

  predicate NoCommaOrQuote(s: string) {
    ',' !in s && '"' !in s
  }

  lemma {:induction false} ScanPlain(rest: string, cur: string)
    requires '"' !in rest && ',' !in cur && '"' !in cur
    ensures Join(Scan(rest, false, cur)) == cur + rest
    ensures forall i :: 0 <= i < |Scan(rest, false, cur)| ==> NoCommaOrQuote(Scan(rest, false, cur)[i])
    decreases |rest|
  {
    if |rest| > 0 {
      assert rest == [rest[0]] + rest[1..];
      if rest[0] == ',' {
        ScanPlain(rest[1..], "");
        assert Scan(rest, false, cur) == [cur] + Scan(rest[1..], false, "");
      } else {
        ScanPlain(rest[1..], cur + [rest[0]]);
        assert cur + [rest[0]] + rest[1..] == cur + rest;
      }
    } else {
      assert cur + rest == cur;
    }
  }

  /** On a line without quotes, splitting cuts at every comma: the fields
      hold no comma and join back to the line. */
  lemma SplitPlainLine(line: string)
    requires '"' !in line
    ensures Join(SplitCsvLine(line)) == line
    ensures forall i :: 0 <= i < |SplitCsvLine(line)| ==> NoCommaOrQuote(SplitCsvLine(line)[i])
  {
    ScanPlain(line, "");
    assert "" + line == line;
  }

  /** Fields free of commas and quotes survive a join and a split. */
  lemma {:induction false} SplitJoinPlain(fields: seq<string>)
    requires |fields| >= 1 && forall i :: 0 <= i < |fields| ==> NoCommaOrQuote(fields[i])
    ensures SplitCsvLine(Join(fields)) == fields
  {
    ScanJoinPlain(fields, "");
    assert "" + fields[0] == fields[0];
    assert fields == [fields[0]] + fields[1..];
  }

  lemma {:induction false} ScanJoinPlain(fields: seq<string>, cur: string)
    requires |fields| >= 1 && forall i :: 0 <= i < |fields| ==> NoCommaOrQuote(fields[i])
    requires NoCommaOrQuote(cur)
    ensures Scan(Join(fields), false, cur) == [cur + fields[0]] + fields[1..]
    decreases |fields|, |fields[0]|
  {
    var f := fields[0];
    if |f| > 0 {
      var fields' := [f[1..]] + fields[1..];
      JoinPlainFirstChar(fields);
      assert f[0] in f;
      ScanJoinPlain(fields', cur + [f[0]]);
      assert (cur + [f[0]]) + f[1..] == cur + f;
    } else if |fields| == 1 {
      assert cur + f == cur;
    } else {
      JoinPlainEmptyFirst(fields, cur);
      ScanJoinPlain(fields[1..], "");
      assert "" + fields[1] == fields[1];
      assert cur + f == cur;
      assert [fields[1]] + fields[2..] == fields[1..];
    }
  }

  /** Reading the first character of a plain first field. */
  lemma JoinPlainFirstChar(fields: seq<string>)
    requires |fields| >= 1 && |fields[0]| > 0 && forall i :: 0 <= i < |fields| ==> NoCommaOrQuote(fields[i])
    ensures var f := fields[0]; var fields' := [f[1..]] + fields[1..];
      && Join(fields) == [f[0]] + Join(fields')
      && (forall i :: 0 <= i < |fields'| ==> NoCommaOrQuote(fields'[i]))
  {
    var f := fields[0];
    var fields' := [f[1..]] + fields[1..];
    if |fields| > 1 {
      assert fields'[1..] == fields[1..];
      assert f == [f[0]] + f[1..];
    }
    assert forall c :: c in f[1..] ==> c in f;
  }

  /** An empty first field ends at the comma that follows it. */
  lemma JoinPlainEmptyFirst(fields: seq<string>, cur: string)
    requires |fields| >= 2 && |fields[0]| == 0
    ensures Scan(Join(fields), false, cur) == [cur] + Scan(Join(fields[1..]), false, "")
  {
    var j := Join(fields[1..]);
    assert Join(fields) == "," + j;
    assert ("," + j)[0] == ',' && ("," + j)[1..] == j;
  }

  /** Writing each quote twice, as a quoted CSV field requires. */
  function Escape(s: string): (r: string)
    ensures |r| >= |s|
  {
    if |s| == 0 then ""
    else if s[0] == '"' then "\"\"" + Escape(s[1..])
    else [s[0]] + Escape(s[1..])
  }

  function Quote(s: string): string {
    "\"" + Escape(s) + "\""
  }

  function JoinQuoted(fields: seq<string>): string
    requires |fields| >= 1
  {
    if |fields| == 1 then Quote(fields[0]) else Quote(fields[0]) + "," + JoinQuoted(fields[1..])
  }

  /** Inside quotes, an escaped field followed by the closing quote reads
      back as the field, as long as no quote follows the closing one. */
  lemma {:induction false} ScanEscaped(f: string, tail: string, cur: string)
    requires |tail| == 0 || tail[0] != '"'
    ensures Scan(Escape(f) + "\"" + tail, true, cur) == Scan(tail, false, cur + f)
    decreases |f|
  {
    var rest := Escape(f) + "\"" + tail;
    if |f| == 0 {
      assert rest == "\"" + tail;
      assert rest[1..] == tail;
      assert cur + f == cur;
    } else {
      var more := Escape(f[1..]) + "\"" + tail;
      ScanEscaped(f[1..], tail, cur + [f[0]]);
      assert cur + [f[0]] + f[1..] == cur + f;
      if f[0] == '"' {
        ScanEscapedQuote(f, tail, cur, more);
      } else {
        ScanEscapedChar(f, tail, cur, more);
      }
    }
  }

  lemma ScanEscapedQuote(f: string, tail: string, cur: string, more: string)
    requires |f| > 0 && f[0] == '"' && more == Escape(f[1..]) + "\"" + tail
    ensures Scan(Escape(f) + "\"" + tail, true, cur) == Scan(more, true, cur + [f[0]])
  {
    var rest := Escape(f) + "\"" + tail;
    assert Escape(f) == "\"\"" + Escape(f[1..]);
    assert rest == "\"\"" + more;
    assert rest[0] == '"' && rest[1] == '"' && rest[2..] == more;
  }

  lemma ScanEscapedChar(f: string, tail: string, cur: string, more: string)
    requires |f| > 0 && f[0] != '"' && more == Escape(f[1..]) + "\"" + tail
    ensures Scan(Escape(f) + "\"" + tail, true, cur) == Scan(more, true, cur + [f[0]])
  {
    var rest := Escape(f) + "\"" + tail;
    assert Escape(f) == [f[0]] + Escape(f[1..]);
    assert rest == [f[0]] + more;
    assert rest[0] == f[0] && rest[1..] == more;
  }

  /** Any fields, each written as a quoted field and joined with commas,
      split back into exactly those fields. */
  lemma {:induction false} SplitJoinQuoted(fields: seq<string>)
    requires |fields| >= 1
    ensures SplitCsvLine(JoinQuoted(fields)) == fields
    decreases |fields|
  {
    var f := fields[0];
    var tail := if |fields| == 1 then "" else "," + JoinQuoted(fields[1..]);
    var line := JoinQuoted(fields);
    assert line == "\"" + (Escape(f) + "\"" + tail);
    assert line[1..] == Escape(f) + "\"" + tail;
    ScanEscaped(f, tail, "");
    assert "" + f == f;
    if |fields| > 1 {
      assert tail[1..] == JoinQuoted(fields[1..]);
      SplitJoinQuoted(fields[1..]);
      assert fields == [f] + fields[1..];
    }
  }

  /** A piece of a written field: bare text, or text written as a quoted
      region with its quotes doubled. A field may mix both, so `"x"y` is the
      quoted region x followed by the bare text y. */
  datatype Segment = Bare(text: string) | Quoted(text: string)

  /** The characters that write the segments, one after the other. */
  function WriteSegments(segs: seq<Segment>): string {
    if |segs| == 0 then "" else Written(segs[0]) + WriteSegments(segs[1..])
  }

  function Written(seg: Segment): string {
    match seg
    case Bare(t) => t
    case Quoted(t) => Quote(t)
  }

  /** The text the segments stand for: their texts, quotes removed. */
  function SegmentText(segs: seq<Segment>): string {
    if |segs| == 0 then "" else segs[0].text + SegmentText(segs[1..])
  }

  /** Segments that read back unambiguously: bare text is non-empty and has
      no comma or quote, and no quoted region directly follows another (the
      closing and opening quotes would read as one escaped quote). */
  predicate SegmentsReadable(segs: seq<Segment>) {
    |segs| > 0 ==>
      && (segs[0].Bare? ==> |segs[0].text| > 0 && NoCommaOrQuote(segs[0].text))
      && (segs[0].Quoted? && |segs| > 1 ==> segs[1].Bare?)
      && SegmentsReadable(segs[1..])
  }

  /** Fields written from their segments and joined with commas. */
  function WriteFields(fields: seq<seq<Segment>>): string
    requires |fields| >= 1
  {
    if |fields| == 1 then WriteSegments(fields[0])
    else WriteSegments(fields[0]) + "," + WriteFields(fields[1..])
  }

  function FieldTexts(fields: seq<seq<Segment>>): (r: seq<string>)
    ensures |r| == |fields|
  {
    if |fields| == 0 then [] else [SegmentText(fields[0])] + FieldTexts(fields[1..])
  }

  /** Bare text is copied character by character. */
  lemma {:induction false} ScanBare(t: string, tail: string, cur: string)
    requires NoCommaOrQuote(t)
    ensures Scan(t + tail, false, cur) == Scan(tail, false, cur + t)
    decreases |t|
  {
    if |t| == 0 {
      assert t + tail == tail && cur + t == cur;
    } else {
      assert t[0] in t;
      assert forall c :: c in t[1..] ==> c in t;
      assert (t + tail)[0] == t[0] && (t + tail)[1..] == t[1..] + tail;
      ScanBare(t[1..], tail, cur + [t[0]]);
      assert cur + [t[0]] + t[1..] == cur + t;
    }
  }

  lemma ReadableTail(segs: seq<Segment>)
    requires |segs| > 0 && SegmentsReadable(segs)
    ensures SegmentsReadable(segs[1..])
    ensures |segs| > 1 ==> var w := WriteSegments(segs[1..]); |w| > 0 && (segs[0].Quoted? ==> w[0] != '"')
  {
    if |segs| > 1 {
      if segs[1].Bare? {
        assert segs[1].text[0] in segs[1].text;
      }
    }
  }

  /** One written field, followed by a comma or the end of the line, reads
      back as its text: quoted regions lose their quotes, doubled quotes
      inside them become one, bare text is kept as is. */
  lemma {:induction false} ScanSegments(segs: seq<Segment>, tail: string, cur: string)
    requires SegmentsReadable(segs)
    requires |tail| == 0 || tail[0] == ','
    ensures Scan(WriteSegments(segs) + tail, false, cur) == Scan(tail, false, cur + SegmentText(segs))
    decreases |segs|
  {
    if |segs| == 0 {
      assert WriteSegments(segs) + tail == tail && cur + SegmentText(segs) == cur;
    } else {
      ScanSegments(segs[1..], tail, cur + segs[0].text);
      ScanSegmentsStep(segs, tail, cur);
    }
  }

  /** The step of ScanSegments: the first segment, then the others. */
  lemma ScanSegmentsStep(segs: seq<Segment>, tail: string, cur: string)
    requires |segs| > 0 && SegmentsReadable(segs)
    requires |tail| == 0 || tail[0] == ','
    requires Scan(WriteSegments(segs[1..]) + tail, false, cur + segs[0].text)
          == Scan(tail, false, (cur + segs[0].text) + SegmentText(segs[1..]))
    ensures Scan(WriteSegments(segs) + tail, false, cur) == Scan(tail, false, cur + SegmentText(segs))
  {
    var t := segs[0].text;
    assert Scan(WriteSegments(segs) + tail, false, cur) == Scan(WriteSegments(segs[1..]) + tail, false, cur + t) by {
      ReadableTail(segs);
      ScanFirstSegment(segs, tail, cur);
    }
    assert (cur + t) + SegmentText(segs[1..]) == cur + SegmentText(segs) by {
      assert SegmentText(segs) == t + SegmentText(segs[1..]);
    }
  }

  /** Reading the first segment of a field. */
  lemma ScanFirstSegment(segs: seq<Segment>, tail: string, cur: string)
    requires |segs| > 0 && SegmentsReadable(segs)
    requires |segs| > 1 || |tail| == 0 || tail[0] == ','
    requires |segs| > 1 ==> var w := WriteSegments(segs[1..]); |w| > 0 && (segs[0].Quoted? ==> w[0] != '"')
    ensures Scan(WriteSegments(segs) + tail, false, cur)
         == Scan(WriteSegments(segs[1..]) + tail, false, cur + segs[0].text)
  {
    var rest := WriteSegments(segs[1..]) + tail;
    var t := segs[0].text;
    var line := WriteSegments(segs) + tail;
    if segs[0].Bare? {
      assert line == t + rest by { WriteBareFirst(segs, tail); }
      ScanBare(t, rest, cur);
    } else {
      assert Scan(line, false, cur) == Scan(Escape(t) + "\"" + rest, true, cur) by {
        WriteQuotedFirst(segs, tail);
        ScanOpenQuote(Escape(t) + "\"" + rest, cur);
      }
      ScanEscaped(t, rest, cur);
    }
  }

  lemma WriteBareFirst(segs: seq<Segment>, tail: string)
    requires |segs| > 0 && segs[0].Bare?
    ensures WriteSegments(segs) + tail == segs[0].text + (WriteSegments(segs[1..]) + tail)
  {
  }

  lemma WriteQuotedFirst(segs: seq<Segment>, tail: string)
    requires |segs| > 0 && segs[0].Quoted?
    ensures WriteSegments(segs) + tail == "\"" + (Escape(segs[0].text) + "\"" + (WriteSegments(segs[1..]) + tail))
  {
    var e := Escape(segs[0].text);
    var w := WriteSegments(segs[1..]);
    assert WriteSegments(segs) == Written(segs[0]) + w;
    assert Written(segs[0]) == "\"" + e + "\"";
    ConcatAssoc("\"", e, "\"", w, tail);
  }

  lemma ConcatAssoc(a: string, b: string, c: string, d: string, e: string)
    ensures (((a + b) + c) + d) + e == a + ((b + c) + (d + e))
  {
  }

  /** An opening quote outside quotes starts a quoted region. */
  lemma ScanOpenQuote(x: string, cur: string)
    ensures Scan("\"" + x, false, cur) == Scan(x, true, cur)
  {
    assert ("\"" + x)[0] == '"' && ("\"" + x)[1..] == x;
  }

  /** Any line written from readable fields splits back into the fields'
      texts: commas inside quoted regions stay in the field, and a quote in
      the middle of a field opens or closes a region and is dropped. */
  lemma {:induction false} SplitJoinSegments(fields: seq<seq<Segment>>)
    requires |fields| >= 1 && forall i :: 0 <= i < |fields| ==> SegmentsReadable(fields[i])
    ensures SplitCsvLine(WriteFields(fields)) == FieldTexts(fields)
    decreases |fields|
  {
    var text := SegmentText(fields[0]);
    var tail := if |fields| == 1 then "" else "," + WriteFields(fields[1..]);
    assert WriteFields(fields) == WriteSegments(fields[0]) + tail;
    ScanSegments(fields[0], tail, "");
    assert "" + text == text;
    if |fields| > 1 {
      assert tail[0] == ',' && tail[1..] == WriteFields(fields[1..]);
      assert Scan(tail, false, text) == [text] + Scan(WriteFields(fields[1..]), false, "");
      assert forall i :: 0 <= i < |fields| - 1 ==> fields[1..][i] == fields[i + 1];
      SplitJoinSegments(fields[1..]);
    }
  }

  /** Each field as it is written on a mixed line: quoted when its flag is
      set, bare (and then free of commas and quotes) otherwise. */
  function MixedSegments(f: string, quoted: bool): seq<Segment> {
    if quoted then [Quoted(f)] else if |f| == 0 then [] else [Bare(f)]
  }

  function JoinMixed(fields: seq<string>, quoted: seq<bool>): string
    requires |fields| == |quoted| >= 1
  {
    var w := if quoted[0] then Quote(fields[0]) else fields[0];
    if |fields| == 1 then w else w + "," + JoinMixed(fields[1..], quoted[1..])
  }

  /** A line that mixes bare and quoted fields, like
      `History,100,"What year did, World War II end?",...`, splits back into
      exactly its fields. */
  lemma {:induction false} SplitJoinMixed(fields: seq<string>, quoted: seq<bool>)
    requires |fields| == |quoted| >= 1
    requires forall i :: 0 <= i < |fields| && !quoted[i] ==> NoCommaOrQuote(fields[i])
    ensures SplitCsvLine(JoinMixed(fields, quoted)) == fields
  {
    MixedWrites(fields, quoted);
    SplitJoinSegments(MixedFields(fields, quoted));
  }

  /** A comma inside a quoted field stays in the field. */
  lemma QuotedCommaStays()
    ensures SplitCsvLine("a,\"b,c\",d") == ["a", "b,c", "d"]
  {
    assert JoinMixed(["a", "b,c", "d"], [false, true, false]) == "a,\"b,c\",d";
    SplitJoinMixed(["a", "b,c", "d"], [false, true, false]);
  }

  /** A quote in the middle of a field closes the quoted region and is
      dropped; the bare text after it joins the same field. */
  lemma MidFieldQuoteDropped()
    ensures SplitCsvLine("\"x\"y") == ["xy"]
  {
    var segs := [Quoted("x"), Bare("y")];
    assert WriteFields([segs]) == "\"x\"y";
    assert SegmentText(segs) == "x" + ("y" + "") == "xy";
    assert [segs][1..] == [];
    assert FieldTexts([segs]) == [SegmentText(segs)];
    SplitJoinSegments([segs]);
  }

  /** Why a quoted region may not directly follow another: the closing
      and the opening quote read as one escaped quote. */
  lemma AdjacentQuotedRegionsMerge()
    ensures SplitCsvLine("\"a\"\"b\"") == ["a\"b"]
  {
    var line := "\"a\"\"b\"";
    assert Scan("\"", true, "a\"b") == Scan("", false, "a\"b") == ["a\"b"];
    assert "a\"" + ['b'] == "a\"b" && "b\""[1..] == "\"";
    assert Scan("b\"", true, "a\"") == Scan("\"", true, "a\"b");
    assert "a" + ['"'] == "a\"" && "\"\"b\""[2..] == "b\"";
    assert Scan("\"\"b\"", true, "a") == Scan("b\"", true, "a\"");
    assert "" + ['a'] == "a" && "a\"\"b\""[1..] == "\"\"b\"";
    assert Scan("a\"\"b\"", true, "") == Scan("\"\"b\"", true, "a");
    assert line[1..] == "a\"\"b\"";
  }

  /** The segments of every field of a mixed line. */
  function MixedFields(fields: seq<string>, quoted: seq<bool>): (r: seq<seq<Segment>>)
    requires |fields| == |quoted|
    ensures |r| == |fields|
  {
    if |fields| == 0 then [] else [MixedSegments(fields[0], quoted[0])] + MixedFields(fields[1..], quoted[1..])
  }

  lemma {:induction false} MixedWrites(fields: seq<string>, quoted: seq<bool>)
    requires |fields| == |quoted| >= 1
    requires forall i :: 0 <= i < |fields| && !quoted[i] ==> NoCommaOrQuote(fields[i])
    ensures var segs := MixedFields(fields, quoted);
      && (forall i :: 0 <= i < |segs| ==> SegmentsReadable(segs[i]))
      && WriteFields(segs) == JoinMixed(fields, quoted)
      && FieldTexts(segs) == fields
    decreases |fields|
  {
    var f := fields[0];
    var segs := MixedFields(fields, quoted);
    assert segs[0] == MixedSegments(f, quoted[0]);
    assert && SegmentsReadable(segs[0])
           && WriteSegments(segs[0]) == (if quoted[0] then Quote(f) else f)
           && SegmentText(segs[0]) == f by {
      MixedField(f, quoted[0]);
    }
    if |fields| > 1 {
      var more := MixedFields(fields[1..], quoted[1..]);
      assert segs[1..] == more;
      assert && WriteFields(more) == JoinMixed(fields[1..], quoted[1..])
             && FieldTexts(more) == fields[1..]
             && forall i :: 0 <= i < |more| ==> SegmentsReadable(more[i]) by {
        assert forall i :: 0 <= i < |fields| - 1 ==> fields[1..][i] == fields[i + 1] && quoted[1..][i] == quoted[i + 1];
        MixedWrites(fields[1..], quoted[1..]);
      }
      assert fields == [f] + fields[1..];
    }
  }

  /** One field of a mixed line, as segments. */
  lemma MixedField(f: string, quoted: bool)
    requires !quoted ==> NoCommaOrQuote(f)
    ensures var segs := MixedSegments(f, quoted);
      && SegmentsReadable(segs)
      && WriteSegments(segs) == (if quoted then Quote(f) else f)
      && SegmentText(segs) == f
  {
    var segs := MixedSegments(f, quoted);
    if quoted || |f| > 0 {
      assert WriteSegments(segs) == Written(segs[0]) + "";
      assert SegmentText(segs) == f + "";
    }
  }

  // ------------------------------------------------------------ unquoting

  /** String.replace("\"\"", "\""): left to right, non-overlapping. */
  function CollapseQuotes(s: string): (r: string)
    ensures |r| <= |s|
  {
    if |s| >= 2 && s[0] == '"' && s[1] == '"' then "\"" + CollapseQuotes(s[2..])
    else if |s| == 0 then ""
    else [s[0]] + CollapseQuotes(s[1..])
  }

  lemma {:induction false} CollapseEscape(s: string)
    ensures CollapseQuotes(Escape(s)) == s
  {
    if |s| > 0 {
      CollapseEscape(s[1..]);
      var e := Escape(s);
      if s[0] == '"' {
        assert e[2..] == Escape(s[1..]);
      } else {
        assert e[1..] == Escape(s[1..]);
        assert e[0] == s[0];
      }
      assert s == [s[0]] + s[1..];
    }
  }

  /** unquote: trim; if what is left is at least two characters long and
      starts and ends with a quote, drop those two quotes and collapse each
      doubled quote. */
  function Unquote(s: string): (r: string)
    ensures |r| <= |s|
  {
    var t := Trim(s);
    assert |t| <= |s|;
    if |t| >= 2 && t[0] == '"' && t[|t| - 1] == '"' then CollapseQuotes(t[1..|t| - 1]) else t
  }

  /** A quoted field unquotes to its text, whatever it contains. */
  lemma UnquoteQuote(s: string)
    ensures Unquote(Quote(s)) == s
  {
    var q := Quote(s);
    assert q[0] == '"' && q[|q| - 1] == '"';
    TrimOfTrimmed(q);
    assert q[1..|q| - 1] == Escape(s);
    CollapseEscape(s);
  }

  // ------------------------------------------------------- the line loop

  /** The header test applied to the first non-blank line only. */
  predicate IsHeader(trimmed: string) {
    var lower := ToLower(trimmed);
    StartsWith(lower, "id") || Contains(lower, "category") || Contains(lower, "value") || Contains(lower, "question")
  }

  /** The loader's bookkeeping: numbers given to non-integer categories, the
      next such number, and how many questions each category number has. */
  datatype Numbering = Numbering(catNumbers: map<string, int>, nextCat: int, counts: map<int, int>)

  const InitialNumbering: Numbering := Numbering(map[], 1, map[])

  function CountOf(counts: map<int, int>, k: int): int {
    if k in counts then counts[k] else 0
  }

  /** Unquoted field k of a row ("" past the end; rows used here have at least 8). */
  function Field(row: seq<string>, k: nat): string {
    if k < |row| then Unquote(row[k]) else ""
  }

  /** The category number of a raw category: its own value if it is an
      integer, otherwise the number already given to it, otherwise the next
      free number, which is then recorded. */
  function AssignNumber(rawCategory: string, n: Numbering): (int, Numbering) {
    match ParseInt(rawCategory)
    case Some(k) => (k, n)
    case None =>
      if rawCategory in n.catNumbers then (n.catNumbers[rawCategory], n)
      else (n.nextCat, n.(catNumbers := n.catNumbers[rawCategory := n.nextCat], nextCat := n.nextCat + 1))
  }

  /** One accepted row: category number, per-number sequence number, id, value. */
  function MakeQuestion(row: seq<string>, n: Numbering): (Question, Numbering) {
    var rawCategory := Field(row, 0);
    var (catNum, n1) := AssignNumber(rawCategory, n);
    var questionNumber := CountOf(n1.counts, catNum) + 1;
    var n2 := n1.(counts := n1.counts[catNum := questionNumber]);
    var id := IntToString(catNum) + IntToString(questionNumber);
    var value := ParseInt(Field(row, 1)).GetOr(0);
    (NewQuestion(id, rawCategory, value, Field(row, 2), Field(row, 3), Field(row, 4),
                 Field(row, 5), Field(row, 6), Field(row, 7)), n2)
  }

  /** The for-loop of loadQuestions over the remaining lines. */
  function LoadLines(lines: seq<string>, first: bool, n: Numbering): seq<Question>
    decreases |lines|
  {
    if |lines| == 0 then []
    else
      var trimmed := Trim(lines[0]);
      if |trimmed| == 0 then LoadLines(lines[1..], first, n)
      else if first && IsHeader(trimmed) then LoadLines(lines[1..], false, n)
      else
        var parts := SplitCsvLine(trimmed);
        if |parts| < 8 then LoadLines(lines[1..], false, n)
        else
          var (q, n') := MakeQuestion(parts, n);
          [q] + LoadLines(lines[1..], false, n')
  }

  /** loadQuestions: a missing or unreadable file gives no questions. */
  function LoadQuestions(file: Option<seq<string>>): (r: seq<Question>)
    ensures file.None? ==> r == []
    ensures file.Some? ==> r == SpecQuestions(Rows(file.value))
    ensures file.Some? ==> |r| <= |file.value|
  {
    match file
    case None => []
    case Some(lines) =>
      LoadMatchesSpec(lines);
      LoadLines(lines, true, InitialNumbering)
  }

  // ------------------------------------------- declarative specification

  /** The trimmed non-blank lines, in file order. */
  function NonBlank(lines: seq<string>): (r: seq<string>)
    ensures |r| <= |lines|
  {
    if |lines| == 0 then []
    else if |Trim(lines[0])| == 0 then NonBlank(lines[1..])
    else [Trim(lines[0])] + NonBlank(lines[1..])
  }

  /** The split lines that have at least 8 fields. */
  function RowsOf(ls: seq<string>): (r: seq<seq<string>>)
    ensures |r| <= |ls|
    ensures forall i :: 0 <= i < |r| ==> |r[i]| >= 8
  {
    if |ls| == 0 then []
    else if |SplitCsvLine(ls[0])| < 8 then RowsOf(ls[1..])
    else [SplitCsvLine(ls[0])] + RowsOf(ls[1..])
  }

  /** The data rows of a file: non-blank lines, minus the first one if it
      looks like a header, minus the rows with fewer than 8 fields. */
  function Rows(lines: seq<string>): seq<seq<string>> {
    var nb := NonBlank(lines);
    if |nb| > 0 && IsHeader(nb[0]) then RowsOf(nb[1..]) else RowsOf(nb)
  }

  /** Position of x in s (|s| when absent). */
  function Position(s: seq<string>, x: string): (r: nat)
    ensures r <= |s| && (r < |s| <==> x in s) && (r < |s| ==> s[r] == x)
  {
    if |s| == 0 then 0 else if s[0] == x then 0 else Position(s[1..], x) + 1
  }

  /** The distinct non-integer categories of the rows, by first appearance. */
  function TextCategories(rows: seq<seq<string>>): seq<string> {
    if |rows| == 0 then []
    else
      var prev := TextCategories(rows[..|rows| - 1]);
      var c := Field(rows[|rows| - 1], 0);
      if ParseInt(c).None? && c !in prev then prev + [c] else prev
  }

  /** The category number of row i: its own value for an integer category,
      otherwise 1 + its position among the non-integer categories. */
  function CategoryNumber(rows: seq<seq<string>>, i: nat): int
    requires i < |rows|
  {
    var c := Field(rows[i], 0);
    match ParseInt(c)
    case Some(k) => k
    case None => Position(TextCategories(rows[..i + 1]), c) + 1
  }

  /** How many rows carry category number k. */
  function NumberCount(rows: seq<seq<string>>, k: int): nat {
    if |rows| == 0 then 0
    else NumberCount(rows[..|rows| - 1], k) + (if CategoryNumber(rows, |rows| - 1) == k then 1 else 0)
  }

  /** The question built from row i: the id is the category number followed
      by the count of rows up to i with that number. */
  function QuestionAt(rows: seq<seq<string>>, i: nat): Question
    requires i < |rows|
  {
    var row := rows[i];
    var num := CategoryNumber(rows, i);
    NewQuestion(IntToString(num) + IntToString(NumberCount(rows[..i + 1], num)),
                Field(row, 0), ParseInt(Field(row, 1)).GetOr(0), Field(row, 2),
                Field(row, 3), Field(row, 4), Field(row, 5), Field(row, 6), Field(row, 7))
  }

  function SpecQuestions(rows: seq<seq<string>>): seq<Question> {
    seq(|rows|, i requires 0 <= i < |rows| => QuestionAt(rows, i))
  }

  // ------------------------------------------------- loop meets spec

  function Build(rows: seq<seq<string>>, n: Numbering): seq<Question> {
    if |rows| == 0 then []
    else
      var (q, n') := MakeQuestion(rows[0], n);
      [q] + Build(rows[1..], n')
  }

  lemma {:induction false} LoadAfterFirst(lines: seq<string>, n: Numbering)
    ensures LoadLines(lines, false, n) == Build(RowsOf(NonBlank(lines)), n)
  {
    if |lines| > 0 {
      LoadAfterFirst(lines[1..], n);
      var t := Trim(lines[0]);
      if |t| > 0 {
        var nb := NonBlank(lines);
        assert nb == [t] + NonBlank(lines[1..]);
        assert nb[1..] == NonBlank(lines[1..]);
        if |SplitCsvLine(t)| >= 8 {
          var (q, n') := MakeQuestion(SplitCsvLine(t), n);
          LoadAfterFirst(lines[1..], n');
          assert RowsOf(nb)[1..] == RowsOf(NonBlank(lines[1..]));
        }
      }
    }
  }

  lemma {:induction false} LoadFromFirst(lines: seq<string>, n: Numbering)
    ensures LoadLines(lines, true, n) == Build(Rows(lines), n)
  {
    if |lines| > 0 {
      var t := Trim(lines[0]);
      if |t| == 0 {
        LoadFromFirst(lines[1..], n);
      } else {
        var nb := NonBlank(lines);
        assert nb == [t] + NonBlank(lines[1..]);
        assert nb[1..] == NonBlank(lines[1..]);
        if IsHeader(t) {
          LoadAfterFirst(lines[1..], n);
        } else {
          LoadAfterFirst(lines, n);
        }
      }
    }
  }

  ghost predicate NamesTrack(catNumbers: map<string, int>, nextCat: int, tc: seq<string>) {
    && (forall c :: c in catNumbers <==> c in tc)
    && (forall c :: c in catNumbers ==> catNumbers[c] == Position(tc, c) + 1)
    && nextCat == |tc| + 1
  }

  ghost predicate CountsTrack(counts: map<int, int>, prefix: seq<seq<string>>) {
    forall k :: CountOf(counts, k) == NumberCount(prefix, k)
  }

  /** The loop's bookkeeping after the rows of prefix agrees with the
      declarative numbering of those rows. */
  ghost predicate Tracks(n: Numbering, prefix: seq<seq<string>>) {
    NamesTrack(n.catNumbers, n.nextCat, TextCategories(prefix)) && CountsTrack(n.counts, prefix)
  }

  lemma PositionAppend(s: seq<string>, x: string, y: string)
    requires y in s
    ensures Position(s + [x], y) == Position(s, y)
  {
    if s[0] != y {
      assert (s + [x])[1..] == s[1..] + [x];
      PositionAppend(s[1..], x, y);
    }
  }

  lemma PositionLast(s: seq<string>, x: string)
    requires x !in s
    ensures Position(s + [x], x) == |s|
  {
    if |s| > 0 {
      assert (s + [x])[1..] == s[1..] + [x];
      PositionLast(s[1..], x);
    }
  }

  lemma SnocFacts(prefix: seq<seq<string>>, row: seq<string>)
    ensures var rows := prefix + [row]; var c := Field(row, 0);
      && TextCategories(rows) == (if ParseInt(c).None? && c !in TextCategories(prefix) then TextCategories(prefix) + [c] else TextCategories(prefix))
      && CategoryNumber(rows, |prefix|) == (match ParseInt(c) case Some(k) => k case None => Position(TextCategories(rows), c) + 1)
      && forall k :: NumberCount(rows, k) == NumberCount(prefix, k) + (if CategoryNumber(rows, |prefix|) == k then 1 else 0)
  {
    var rows := prefix + [row];
    assert rows[..|rows| - 1] == prefix;
    assert rows[..|prefix| + 1] == rows;
  }

  lemma AssignStep(n: Numbering, tc: seq<string>, c: string)
    requires NamesTrack(n.catNumbers, n.nextCat, tc)
    ensures var tc' := if ParseInt(c).None? && c !in tc then tc + [c] else tc;
      && AssignNumber(c, n).0 == (match ParseInt(c) case Some(k) => k case None => Position(tc', c) + 1)
      && NamesTrack(AssignNumber(c, n).1.catNumbers, AssignNumber(c, n).1.nextCat, tc')
      && AssignNumber(c, n).1.counts == n.counts
  {
    match ParseInt(c)
    case Some(k) =>
    case None =>
      if c !in tc {
        var tc' := tc + [c];
        var n1 := AssignNumber(c, n).1;
        assert n1.catNumbers == n.catNumbers[c := n.nextCat];
        PositionLast(tc, c);
        forall d | d in tc ensures Position(tc', d) == Position(tc, d) {
          PositionAppend(tc, c, d);
        }
        assert forall d :: d in n1.catNumbers <==> d in tc';
      }
  }

  lemma CountStep(counts: map<int, int>, prefix: seq<seq<string>>, row: seq<string>, num: int)
    requires CountsTrack(counts, prefix) && num == CategoryNumber(prefix + [row], |prefix|)
    ensures CountOf(counts, num) + 1 == NumberCount(prefix + [row], num)
    ensures CountsTrack(counts[num := CountOf(counts, num) + 1], prefix + [row])
  {
    SnocFacts(prefix, row);
  }

  /** The category number and sequence number the loop gives a row agree
      with the declarative numbering. */
  lemma NumbersStep(n: Numbering, prefix: seq<seq<string>>, row: seq<string>)
    requires Tracks(n, prefix)
    ensures var rows := prefix + [row]; var (num, n1) := AssignNumber(Field(row, 0), n);
      && num == CategoryNumber(rows, |prefix|)
      && CountOf(n1.counts, num) + 1 == NumberCount(rows, num)
      && Tracks(n1.(counts := n1.counts[num := CountOf(n1.counts, num) + 1]), rows)
  {
    var c := Field(row, 0);
    var (num, n1) := AssignNumber(c, n);
    SnocFacts(prefix, row);
    AssignStep(n, TextCategories(prefix), c);
    CountStep(n.counts, prefix, row, num);
  }

  lemma TracksStep(n: Numbering, prefix: seq<seq<string>>, row: seq<string>)
    requires Tracks(n, prefix)
    ensures var rows := prefix + [row];
      MakeQuestion(row, n).0 == QuestionAt(rows, |prefix|) && Tracks(MakeQuestion(row, n).1, rows)
  {
    var rows := prefix + [row];
    var (num, n1) := AssignNumber(Field(row, 0), n);
    assert rows[|prefix|] == row && rows[..|prefix| + 1] == rows;
    assert && num == CategoryNumber(rows, |prefix|)
           && CountOf(n1.counts, num) + 1 == NumberCount(rows, num)
           && Tracks(n1.(counts := n1.counts[num := CountOf(n1.counts, num) + 1]), rows) by {
      NumbersStep(n, prefix, row);
    }
  }

  /** Row k's question depends only on the rows up to and including it. */
  lemma QuestionAtPrefix(rows: seq<seq<string>>, k: nat)
    requires k < |rows|
    ensures QuestionAt(rows[..k + 1], k) == QuestionAt(rows, k)
  {
    var p := rows[..k + 1];
    assert p[..k + 1] == p;
    assert p[k] == rows[k];
    assert CategoryNumber(p, k) == CategoryNumber(rows, k);
  }

  lemma SpecQuestionsSuffix(rows: seq<seq<string>>, k: nat)
    requires k < |rows|
    ensures SpecQuestions(rows)[k..] == [QuestionAt(rows, k)] + SpecQuestions(rows)[k + 1..]
  {
    var sq := SpecQuestions(rows);
    assert |sq| == |rows|;
    assert sq[k] == QuestionAt(rows, k);
    SplitHead(sq, k);
  }

  lemma SplitHead<T>(s: seq<T>, k: nat)
    requires k < |s|
    ensures s[k..] == [s[k]] + s[k + 1..]
  {
  }

  lemma BuildStep(rows: seq<seq<string>>, k: nat, n: Numbering)
    requires k < |rows|
    ensures Build(rows[k..], n) == [MakeQuestion(rows[k], n).0] + Build(rows[k + 1..], MakeQuestion(rows[k], n).1)
  {
    assert rows[k..][1..] == rows[k + 1..];
    assert rows[k..][0] == rows[k];
  }

  lemma {:induction false} BuildMatchesSpec(rows: seq<seq<string>>, k: nat, n: Numbering)
    requires k <= |rows| && Tracks(n, rows[..k])
    ensures Build(rows[k..], n) == SpecQuestions(rows)[k..]
    decreases |rows| - k
  {
    if k < |rows| {
      TracksStep(n, rows[..k], rows[k]);
      assert rows[..k] + [rows[k]] == rows[..k + 1];
      QuestionAtPrefix(rows, k);
      BuildMatchesSpec(rows, k + 1, MakeQuestion(rows[k], n).1);
      BuildStep(rows, k, n);
      SpecQuestionsSuffix(rows, k);
    } else {
      assert rows[k..] == [];
    }
  }

  /** The loader's loop gives exactly the declaratively specified questions:
      one per data row, in file order, with the id scheme above. */
  lemma LoadMatchesSpec(lines: seq<string>)
    ensures LoadLines(lines, true, InitialNumbering) == SpecQuestions(Rows(lines))
  {
    LoadFromFirst(lines, InitialNumbering);
    var rows := Rows(lines);
    assert rows[..0] == [];
    assert Tracks(InitialNumbering, rows[..0]);
    BuildMatchesSpec(rows, 0, InitialNumbering);
    assert rows[0..] == rows;
  }
}
