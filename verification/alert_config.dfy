/** The alert-config loader (`LoadConfig`): each line of the alert file names an entity
    path and an icon size, `path;<unused>;width,height`; lines starting with `#` are
    comments. The file is given as its sequence of lines. */
module AlertConfig {
  import opened Wrappers
  import Text
  import Numbers

  /** SharpDX `Size2`. */
  datatype Size = Size(width: int, height: int)

  /** The `modIcons` dictionary: entity path to icon size. */
  type Table = map<string, Size>

  /** What makes a line throw: too few `;` fields (`IndexOutOfRangeException` on `s[2]`),
      too few `,` components (`IndexOutOfRangeException` on `sz[1]`), or an `int.Parse`
      failure. */
  datatype LineError = TooFewFields | TooFewSizeComponents | BadNumber(reason: Numbers.NumberError)

  /** The load fails at the first throwing line, reported with its zero-based index. */
  datatype ConfigError = ConfigError(line: nat, kind: LineError)

  datatype LineResult = Comment | Entry(key: string, size: Size) | Malformed(error: LineError)

  predicate IsComment(line: string) {
    Text.StartsWith(line, "#")
  }

  /** The size part of a line: the trimmed third field split on `,`, whose first two
      components are parsed in order (C# evaluates `int.Parse(sz[0])` before it indexes
      `sz[1]`); further components are ignored. */
  function ParseSize(field: string): (r: Result<Size, LineError>)
    ensures var sz := Text.Split(Text.Trim(field), ',');
            && (r.Success? <==> |sz| >= 2 && Numbers.ParseInt(sz[0]).Success? && Numbers.ParseInt(sz[1]).Success?)
            && (r.Success? ==> r.value == Size(Numbers.ParseInt(sz[0]).value, Numbers.ParseInt(sz[1]).value))
            && (Numbers.ParseInt(sz[0]).Failure? ==> r == Failure(BadNumber(Numbers.ParseInt(sz[0]).error)))
            && (Numbers.ParseInt(sz[0]).Success? && |sz| >= 2 && Numbers.ParseInt(sz[1]).Failure? ==>
                  r == Failure(BadNumber(Numbers.ParseInt(sz[1]).error)))
            && (r == Failure(TooFewSizeComponents) <==> Numbers.ParseInt(sz[0]).Success? && |sz| < 2)
    ensures r.Success? ==> Numbers.InInt32(r.value.width) && Numbers.InInt32(r.value.height)
    ensures r.Failure? ==> r.error != TooFewFields
  {
    var sz := Text.Split(Text.Trim(field), ',');
    match Numbers.ParseInt(sz[0])
    case Failure(e) => Failure(BadNumber(e))
    case Success(width) =>
      if |sz| < 2 then
        Failure(TooFewSizeComponents)
      else
        match Numbers.ParseInt(sz[1])
        case Failure(e) => Failure(BadNumber(e))
        case Success(height) => Success(Size(width, height))
  }

  /** Splitting a line with at least one `;` puts the text before the first `;` first. */
  lemma FirstField(line: string)
    requires Text.Count(line, ';') >= 1
    ensures var f := Text.Split(line, ';')[0];
            |f| < |line| && line[..|f|] == f && line[|f|] == ';'
  {
    var fields := Text.Split(line, ';');
    assert line == fields[0] + [';'] + Text.Join(fields[1..], ';');
  }

  /** One pass of the loop body: skip a comment, otherwise key the size of the third
      `;` field under the untrimmed first field. */
  function ParseLine(line: string): (r: LineResult)
    ensures r.Comment? <==> |line| > 0 && line[0] == '#'
    ensures r == Malformed(TooFewFields) <==> !IsComment(line) && Text.Count(line, ';') < 2
    ensures r.Entry? ==> ';' !in r.key && |r.key| < |line|
                         && line[..|r.key|] == r.key && line[|r.key|] == ';'
    ensures r.Entry? ==> Numbers.InInt32(r.size.width) && Numbers.InInt32(r.size.height)
    ensures !IsComment(line) && Text.Count(line, ';') >= 2 ==>
              var fields := Text.Split(line, ';');
              var size := ParseSize(fields[2]);
              && (r.Entry? <==> size.Success?)
              && (r.Entry? ==> r == Entry(fields[0], size.value))
              && (r.Malformed? ==> r.error == size.error)
  {
    if IsComment(line) then
      Comment
    else
      var fields := Text.Split(line, ';');
      if |fields| < 3 then
        Malformed(TooFewFields)
      else
        match ParseSize(fields[2])
        case Failure(e) => Malformed(e)
        case Success(size) =>
          FirstField(line);
          Entry(fields[0], size)
  }

  /** The size field is trimmed and split on `,`: surrounding white space is dropped and
      every component, the ignored ones included, is kept as written. */
  lemma SizeFieldComponents(pre: string, comps: seq<string>, post: string)
    requires |comps| >= 2 && forall k :: 0 <= k < |comps| ==> ',' !in comps[k]
    requires |comps[0]| > 0 && !Text.IsWhiteSpace(comps[0][0])
    requires var last := comps[|comps| - 1]; |last| > 0 && !Text.IsWhiteSpace(last[|last| - 1])
    requires forall k :: 0 <= k < |pre| ==> Text.IsWhiteSpace(pre[k])
    requires forall k :: 0 <= k < |post| ==> Text.IsWhiteSpace(post[k])
    ensures Text.Split(Text.Trim(pre + Text.Join(comps, ',') + post), ',') == comps
  {
    var x := Text.Join(comps, ',');
    assert x[0] == comps[0][0];
    Text.JoinEndsWithLast(comps, ',');
    Text.TrimPadded(pre, x, post, Text.IsWhiteSpace);
    Text.SplitJoin(comps, ',');
  }

  /** A line whose key does not start with `#` and that has at least three `;` fields is
      an entry exactly when its third field is a size, whatever the further fields hold. */
  lemma ParseLineFields(key: string, note: string, sizeField: string, rest: seq<string>)
    requires ';' !in key && ';' !in note && ';' !in sizeField && !IsComment(key)
    requires forall k :: 0 <= k < |rest| ==> ';' !in rest[k]
    ensures var size := ParseSize(sizeField);
            ParseLine(Text.Join([key, note, sizeField] + rest, ';'))
            == if size.Success? then Entry(key, size.value) else Malformed(size.error)
  {
    var line := Text.Join([key, note, sizeField] + rest, ';');
    JoinedFields(key, note, sizeField, rest);
    ParseLineOfFields(line);
  }

  /** Joining fields on `;` keeps the first field first and the third field third, and a
      key that is not a comment keeps the line from being one. */
  lemma JoinedFields(key: string, note: string, sizeField: string, rest: seq<string>)
    requires ';' !in key && ';' !in note && ';' !in sizeField && !IsComment(key)
    requires forall k :: 0 <= k < |rest| ==> ';' !in rest[k]
    ensures var line := Text.Join([key, note, sizeField] + rest, ';');
            var fields := Text.Split(line, ';');
            !IsComment(line) && |fields| >= 3 && fields[0] == key && fields[2] == sizeField
  {
    var parts := [key, note, sizeField] + rest;
    var line := Text.Join(parts, ';');
    assert !IsComment(line) by {
      assert line == key + [';'] + Text.Join(parts[1..], ';');
      KeyDecidesComment(key, Text.Join(parts[1..], ';'));
    }
    Text.SplitJoin(parts, ';');
  }

  /** The body of `ParseLine` for a line that is not a comment and has three fields. */
  lemma ParseLineOfFields(line: string)
    requires !IsComment(line) && |Text.Split(line, ';')| >= 3
    ensures var fields := Text.Split(line, ';');
            var size := ParseSize(fields[2]);
            ParseLine(line) == if size.Success? then Entry(fields[0], size.value) else Malformed(size.error)
  {
  }

  /** A line that starts with a key and `;` is a comment only when the key is. */
  lemma KeyDecidesComment(key: string, tail: string)
    requires !IsComment(key)
    ensures !IsComment(key + [';'] + tail)
  {
    var line := key + [';'] + tail;
    if |key| > 0 {
      assert key[..1][0] == key[0];
      assert line[..1][0] == key[0];
    } else {
      assert line[..1][0] == ';';
    }
  }

  /** A full line `key;note;  w , h ,more  ;rest` is read as the size `(w, h)` under
      `key`: white space around the size field and around each number, a sign, leading
      zeros, further `,` components and further `;` fields are all accepted, and the line
      is malformed exactly when one of the two numbers does not parse. */
  lemma ParseLineGeneral(key: string, note: string, pre: string, comps: seq<string>, post: string, rest: seq<string>)
    requires ';' !in key && ';' !in note && !IsComment(key)
    requires forall k :: 0 <= k < |rest| ==> ';' !in rest[k]
    requires |comps| >= 2 && forall k :: 0 <= k < |comps| ==> ',' !in comps[k] && ';' !in comps[k]
    requires |comps[0]| > 0 && !Text.IsWhiteSpace(comps[0][0])
    requires var last := comps[|comps| - 1]; |last| > 0 && !Text.IsWhiteSpace(last[|last| - 1])
    requires forall k :: 0 <= k < |pre| ==> Text.IsWhiteSpace(pre[k])
    requires forall k :: 0 <= k < |post| ==> Text.IsWhiteSpace(post[k])
    ensures var w := Numbers.ParseInt(comps[0]);
            var h := Numbers.ParseInt(comps[1]);
            ParseLine(Text.Join([key, note, pre + Text.Join(comps, ',') + post] + rest, ';'))
            == if w.Failure? then Malformed(BadNumber(w.error))
               else if h.Failure? then Malformed(BadNumber(h.error))
               else Entry(key, Size(w.value, h.value))
  {
    var sizeField := pre + Text.Join(comps, ',') + post;
    Text.JoinAvoids(comps, ',', ';');
    assert ';' !in pre && ';' !in post;
    SizeFieldComponents(pre, comps, post);
    ParseLineFields(key, note, sizeField, rest);
  }

  /** `ParseLine` applied to every line. */
  function ParseAll(lines: seq<string>): (rs: seq<LineResult>)
    ensures |rs| == |lines| && forall i :: 0 <= i < |lines| ==> rs[i] == ParseLine(lines[i])
  {
    seq(|lines|, i requires 0 <= i < |lines| => ParseLine(lines[i]))
  }

  /** Result `i` is an entry for path `k`. */
  predicate Defines(rs: seq<LineResult>, i: int, k: string) {
    0 <= i < |rs| && rs[i].Entry? && rs[i].key == k
  }

  /** The loop over the parsed lines: a later entry for the same path overwrites the
      earlier one, and the first malformed line aborts the whole load. */
  function Apply(rs: seq<LineResult>): (r: Result<Table, ConfigError>)
    ensures r.Success? <==> forall i :: 0 <= i < |rs| ==> !rs[i].Malformed?
    ensures r.Failure? ==> && r.error.line < |rs|
                           && rs[r.error.line] == Malformed(r.error.kind)
                           && forall i :: 0 <= i < r.error.line ==> !rs[i].Malformed?
    ensures r.Success? ==> forall k :: k in r.value <==> exists i :: Defines(rs, i, k)
  {
    if |rs| == 0 then
      Success(map[])
    else
      var n := |rs| - 1;
      var prev := Apply(rs[..n]);
      assert forall i, k :: Defines(rs[..n], i, k) <==> i < n && Defines(rs, i, k);
      if prev.Failure? then
        prev
      else
        match rs[n]
        case Comment => prev
        case Entry(k, size) =>
          assert Defines(rs, n, k);
          Success(prev.value[k := size])
        case Malformed(e) => Failure(ConfigError(n, e))
  }

  /** `LoadConfig`: the table of the whole file, or the first line that throws. */
  function Load(lines: seq<string>): (r: Result<Table, ConfigError>)
    ensures r.Success? <==> forall i :: 0 <= i < |lines| ==> !ParseLine(lines[i]).Malformed?
    ensures r.Failure? ==> && r.error.line < |lines|
                           && ParseLine(lines[r.error.line]) == Malformed(r.error.kind)
                           && forall i :: 0 <= i < r.error.line ==> !ParseLine(lines[i]).Malformed?
    ensures r.Success? ==> forall k :: k in r.value <==> exists i :: Defines(ParseAll(lines), i, k)
  {
    Apply(ParseAll(lines))
  }

  /** The last entry for a path decides its size. */
  lemma {:induction false} LastEntryWins(rs: seq<LineResult>, i: nat, k: string, size: Size)
    requires i < |rs| && rs[i] == Entry(k, size)
    requires forall j :: i < j < |rs| ==> !Defines(rs, j, k)
    requires Apply(rs).Success?
    ensures k in Apply(rs).value && Apply(rs).value[k] == size
  {
    var n := |rs| - 1;
    var prefix := rs[..n];
    assert Apply(prefix).Success?;
    if i < n {
      assert forall j :: i < j < n ==> (Defines(prefix, j, k) <==> Defines(rs, j, k));
      LastEntryWins(prefix, i, k, size);
      assert !Defines(rs, n, k);
    }
  }

  /** In a loaded file, the size stored for a path is that of the last line naming it. */
  lemma LoadLastLineWins(lines: seq<string>, i: nat, k: string, size: Size)
    requires i < |lines| && ParseLine(lines[i]) == Entry(k, size)
    requires forall j :: i < j < |lines| ==> !(ParseLine(lines[j]).Entry? && ParseLine(lines[j]).key == k)
    requires Load(lines).Success?
    ensures k in Load(lines).value && Load(lines).value[k] == size
  {
    LastEntryWins(ParseAll(lines), i, k, size);
  }

  /** A config line written the way the alert file lays it out. */
  function FormatLine(key: string, note: string, size: Size): string {
    key + ";" + note + ";" + Numbers.FormatInt(size.width) + "," + Numbers.FormatInt(size.height)
  }

  /** Reading back a well-formed line gives the path and the size it was written with. */
  lemma FormatLineRoundTrip(key: string, note: string, size: Size)
    requires ';' !in key && ';' !in note && !IsComment(key)
    requires Numbers.InInt32(size.width) && Numbers.InInt32(size.height)
    ensures ParseLine(FormatLine(key, note, size)) == Entry(key, size)
  {
    var sizeField := Numbers.FormatInt(size.width) + "," + Numbers.FormatInt(size.height);
    FormattedFields(key, note, size);
    FormattedSize(size);
    ParseLineFields(key, note, sizeField, []);
  }

  /** A formatted line is its three fields joined on `;`. */
  lemma FormattedFields(key: string, note: string, size: Size)
    ensures var sizeField := Numbers.FormatInt(size.width) + "," + Numbers.FormatInt(size.height);
            FormatLine(key, note, size) == Text.Join([key, note, sizeField] + [], ';')
  {
    var sizeField := Numbers.FormatInt(size.width) + "," + Numbers.FormatInt(size.height);
    assert [key, note, sizeField] + [] == [key, note, sizeField];
    assert Text.Join([sizeField], ';') == sizeField;
    assert [key, note, sizeField][1..] == [note, sizeField];
    assert [note, sizeField][1..] == [sizeField];
  }

  /** A formatted size field reads back as the size, and holds no `;`. */
  lemma FormattedSize(size: Size)
    requires Numbers.InInt32(size.width) && Numbers.InInt32(size.height)
    ensures var sizeField := Numbers.FormatInt(size.width) + "," + Numbers.FormatInt(size.height);
            ';' !in sizeField && ParseSize(sizeField) == Success(size)
  {
    var w := Numbers.FormatInt(size.width);
    var h := Numbers.FormatInt(size.height);
    var sizeField := w + "," + h;
    Text.TrimByUnchanged(sizeField, Text.IsWhiteSpace);
    assert [w, h][1..] == [h];
    assert sizeField == Text.Join([w, h], ',');
    Text.SplitJoin([w, h], ',');
    Numbers.ParseFormatRoundTrip(size.width);
    Numbers.ParseFormatRoundTrip(size.height);
  }
}

/** Worked lines from the alert file format. */
module AlertConfigExamples {
  import opened Wrappers
  import opened AlertConfig
  import Numbers

  /** A size line yields its path and size. */
  lemma SizeLineExample()
    ensures ParseLine("Metadata/Foo;ignored;32,32") == Entry("Metadata/Foo", Size(32, 32))
  {
    assert "Metadata/Foo"[..1][0] == 'M';
    assert Numbers.FormatInt(32) == "32";
    assert FormatLine("Metadata/Foo", "ignored", Size(32, 32)) == "Metadata/Foo;ignored;32,32";
    FormatLineRoundTrip("Metadata/Foo", "ignored", Size(32, 32));
  }

  /** A `#` line yields nothing. */
  lemma CommentLineExample()
    ensures ParseLine("#Metadata/Foo;ignored;32,32") == Comment
  {
  }

  /** Of two entries for the same path, the later one is kept; a malformed line after
      them still fails the load, at its own index. */
  lemma OverwriteExample()
    ensures Apply([Entry("Metadata/Foo", Size(32, 32)), Comment, Entry("Metadata/Foo", Size(8, 9))])
            == Success(map["Metadata/Foo" := Size(8, 9)])
    ensures Apply([Entry("Metadata/Foo", Size(32, 32)), Malformed(TooFewSizeComponents)])
            == Failure(ConfigError(1, TooFewSizeComponents))
  {
    var rs := [Entry("Metadata/Foo", Size(32, 32)), Comment, Entry("Metadata/Foo", Size(8, 9))];
    assert rs[..2][..1] == rs[..1];
    assert rs[..1][..0] == [];
    assert Apply(rs[..1]) == Success(map["Metadata/Foo" := Size(32, 32)]);
    assert Apply(rs[..2]) == Success(map["Metadata/Foo" := Size(32, 32)]);
    assert map["Metadata/Foo" := Size(32, 32)]["Metadata/Foo" := Size(8, 9)] == map["Metadata/Foo" := Size(8, 9)];
    var bad := [Entry("Metadata/Foo", Size(32, 32)), Malformed(TooFewSizeComponents)];
    assert bad[..1] == rs[..1];
  }
}
