/** Parsing of the split file: one `<taxonomy_id>-<model_id>.<ext>` record per line. */
module Manifest {
  import opened Wrappers
  import opened Text

  /** One entry of `file_list`. */
  datatype Record = Record(taxonomyId: string, modelId: string, filePath: string)

  /** The loop body of the constructor for one line: strip it, take the text
      before the first '-' as the taxonomy id, the second '-'-field cut at its
      first '.' as the model id, and keep the stripped line as the path. A line
      with no '-' has no second field, which raises. */
  function ParseLine(line: string): (r: Result<Record>)
    ensures r.Success? <==> '-' in Strip(line)
    ensures r.Failure? ==> r.error == MissingDash
    ensures r.Success? ==> r.value.filePath == Strip(line)
  {
    var l := Strip(line);
    var fields := Split(l, '-');
    if |fields| < 2 then
      SplitFields(l, '-');
      Failure(MissingDash)
    else
      SplitFields(l, '-');
      Success(Record(fields[0], Split(fields[1], '.')[0], l))
  }

  /** The fields of a parsed line, in terms of where the delimiters sit. */
  lemma ParseLineFields(line: string)
    requires '-' in Strip(line)
    ensures var l := Strip(line);
      var rec := ParseLine(line).value;
      && rec.taxonomyId == Before(l, '-')
      && rec.modelId == Before(Before(After(l, '-'), '-'), '.')
      && rec.filePath == l
  {
    var l := Strip(line);
    SplitFields(l, '-');
    SplitFields(Split(l, '-')[1], '.');
  }

  /** The line can be read back from the record: it starts with the taxonomy
      id, a '-', and the model id, which hold no '-' (nor '.'), and whatever
      follows begins with '-' or '.'. So the two ids are determined by the line. */
  lemma ParseLineReconstructs(line: string)
    requires '-' in Strip(line)
    ensures var l := Strip(line);
      var rec := ParseLine(line).value;
      var head := rec.taxonomyId + ['-'] + rec.modelId;
      && '-' !in rec.taxonomyId
      && '-' !in rec.modelId && '.' !in rec.modelId
      && head <= l
      && (|head| < |l| ==> l[|head|] == '-' || l[|head|] == '.')
  {
    ParseLineFields(line);
    HeadOfLine(Strip(line));
  }

  /** A line written in the manifest format `<taxonomy_id>-<model_id>.<ext>`
      parses back to its parts, whatever the extension holds, provided the
      ids hold no delimiter and the line has no whitespace at its ends. */
  lemma ParseFormattedLine(taxonomyId: string, modelId: string, ext: string)
    requires '-' !in taxonomyId && '-' !in modelId && '.' !in modelId
    requires taxonomyId != [] && !IsSpace(taxonomyId[0])
    requires ext != [] && !IsSpace(ext[|ext| - 1])
    ensures var line := taxonomyId + ['-'] + modelId + ['.'] + ext;
      ParseLine(line) == Success(Record(taxonomyId, modelId, line))
  {
    var line := taxonomyId + ['-'] + modelId + ['.'] + ext;
    assert line[0] == taxonomyId[0] && line[|line| - 1] == ext[|ext| - 1];
    StripNoEdgeSpace(line);
    FormattedFields(taxonomyId, modelId, ext);
    ParseLineFields(line);
  }

  /** Where the delimiters of a formatted line put the two ids. */
  lemma FormattedFields(taxonomyId: string, modelId: string, ext: string)
    requires '-' !in taxonomyId && '-' !in modelId && '.' !in modelId
    ensures var line := taxonomyId + ['-'] + modelId + ['.'] + ext;
      && '-' in line
      && Before(line, '-') == taxonomyId
      && Before(Before(After(line, '-'), '-'), '.') == modelId
  {
    var line := taxonomyId + ['-'] + modelId + ['.'] + ext;
    var rest := modelId + ['.'] + ext;
    assert line == taxonomyId + (['-'] + rest);
    BeforeAppend(taxonomyId, '-', ['-'] + rest);
    assert After(line, '-') == rest;
    assert rest == modelId + (['.'] + ext);
    BeforeAppend(modelId, '-', ['.'] + ext);
    BeforeAppend(['.'], '-', ext);
    var field := modelId + (['.'] + Before(ext, '-'));
    assert Before(rest, '-') == field;
    BeforeAppend(modelId, '.', ['.'] + Before(ext, '-'));
  }

  /** `ParseLineReconstructs` for the stripped line itself. */
  lemma HeadOfLine(l: string)
    requires '-' in l
    ensures var tax := Before(l, '-');
      var model := Before(Before(After(l, '-'), '-'), '.');
      var head := tax + ['-'] + model;
      && '-' !in model
      && head <= l
      && (|head| < |l| ==> l[|head|] == '-' || l[|head|] == '.')
  {
    var tax := Before(l, '-');
    var rest := After(l, '-');
    var seg := Before(rest, '-');
    var model := Before(seg, '.');
    assert l == tax + ['-'] + rest;
    assert model <= rest;
    assert '-' !in model by {
      forall i | 0 <= i < |model| ensures model[i] != '-' {
        assert model[i] == seg[i];
      }
    }
    var head := tax + ['-'] + model;
    if |head| < |l| {
      assert l[|head|] == rest[|model|];
      if |model| < |seg| {
        assert seg[|model|] == '.';
      } else {
        assert rest[|seg|] == '-';
      }
    }
  }

  /** The constructor's loop over the lines of the split file: one record per
      line, in file order; the first line without a '-' raises. */
  function ParseManifest(lines: seq<string>): (r: Result<seq<Record>>)
    ensures r.Success? <==> forall k :: 0 <= k < |lines| ==> '-' in Strip(lines[k])
    ensures r.Failure? ==> r.error == MissingDash
    ensures r.Success? ==> |r.value| == |lines|
    ensures r.Success? ==> forall k :: 0 <= k < |lines| ==> ParseLine(lines[k]) == Success(r.value[k])
  {
    MapAll(ParseLine, lines)
  }

  /** Applies `f` to each element in order, stopping at the first failure. */
  function MapAll<A, B>(f: A -> Result<B>, xs: seq<A>): (r: Result<seq<B>>)
    ensures r.Success? <==> forall k :: 0 <= k < |xs| ==> f(xs[k]).Success?
    ensures r.Failure? ==> exists k :: 0 <= k < |xs| && f(xs[k]) == Failure(r.error)
    ensures r.Success? ==> |r.value| == |xs|
    ensures r.Success? ==> forall k :: 0 <= k < |xs| ==> f(xs[k]) == Success(r.value[k])
  {
    if |xs| == 0 then Success([])
    else
      var init := MapAll(f, xs[..|xs| - 1]);
      var last := f(xs[|xs| - 1]);
      if init.Failure? then init
      else if last.Failure? then Failure(last.error)
      else Success(init.value + [last.value])
  }
}
