/**
 * Collecting and comparing the outputs of one succeeded test: the expected
 * files are listed under the test's `output_data` directory of the resource
 * bucket, the actual files under every `gs://<act_bucket>/...` path named in
 * the test's input JSON, and the two are matched by base name; then every
 * file whose checksums differ is compared by content with a tool chosen by
 * its extension, and the mismatches are counted.
 *
 * Cloud Storage listings are a parameter `listBlobs(bucket, prefix)`, the
 * input file's lines a parameter `readLines(path)`, and the exit status of
 * the external comparison tools a parameter `tool(comparator, exp, act)`.
 */
module Outputs {
  import opened Wrappers
  import opened Text

  /** A listed object: its full name within the bucket and its MD5 checksum. */
  datatype Blob = Blob(name: string, md5: string)

  /** `outs[bn]`: expected checksum and path, and the actual ones once found. */
  datatype Entry = Entry(exp: string, expPath: string, act: Option<string>, actPath: Option<string>)

  const ExpectedBucket: string := "broad-dsp-lrma-ci-resources"
  const ActualBucket: string := "broad-dsp-lrma-ci"

  function GsPath(bucket: string, name: string): string {
    "gs://" + bucket + "/" + name
  }

  /** The test name: the input's base name with every ".json" removed. */
  function TestName(inputJson: string): string {
    RemoveAll(Basename(inputJson), ".json")
  }

  /** Where the expected outputs of a test are listed. */
  function ExpectedPrefix(inputJson: string): string {
    "test_data/" + TestName(inputJson) + "/output_data"
  }

  /** An input `dir/name.json`, with no slash in `name` and no ".json"
      inside it (dotted names such as `sample1.download` included), has test
      name `name`, and its expected outputs are listed under
      `test_data/name/output_data`. */
  lemma TestNameOfJson(dir: string, name: string)
    requires '/' !in name && !Contains(name, ".json")
    ensures TestName(dir + "/" + name + ".json") == name
    ensures ExpectedPrefix(dir + "/" + name + ".json") == "test_data/" + name + "/output_data"
  {
    var file := name + ".json";
    assert '/' !in file;
    assert dir + "/" + name + ".json" == dir + "/" + file;
    BasenameJoin(dir, file);
    assert ".json"[0] !in ".json"[1..];
    RemoveAllAfter(name, ".json");
  }


  /** The base names of the listed objects. */
  function Names(bs: seq<Blob>): set<string> {
    set i | 0 <= i < |bs| :: Basename(bs[i].name)
  }

  /** The position of the last listed object with base name `bn`. */
  function LastWith(bs: seq<Blob>, bn: string): (r: Option<nat>)
    ensures r.Some? ==> r.value < |bs| && Basename(bs[r.value].name) == bn
                        && forall j :: r.value < j < |bs| ==> Basename(bs[j].name) != bn
    ensures r.None? ==> forall j :: 0 <= j < |bs| ==> Basename(bs[j].name) != bn
    decreases |bs|
  {
    if |bs| == 0 then None
    else if Basename(bs[|bs| - 1].name) == bn then Some(|bs| - 1)
    else LastWith(bs[..|bs| - 1], bn)
  }

  lemma NamesStep(bs: seq<Blob>)
    requires |bs| > 0
    ensures Names(bs) == Names(bs[..|bs| - 1]) + {Basename(bs[|bs| - 1].name)}
  {
    var p := bs[..|bs| - 1];
    forall n | n in Names(bs) ensures n in Names(p) + {Basename(bs[|bs| - 1].name)} {
      var i :| 0 <= i < |bs| && Basename(bs[i].name) == n;
      if i < |bs| - 1 {
        assert p[i] == bs[i];
      }
    }
    forall n | n in Names(p) ensures n in Names(bs) {
      var i :| 0 <= i < |p| && Basename(p[i].name) == n;
      assert bs[i] == p[i];
    }
  }

  lemma LastWithStep(bs: seq<Blob>, bn: string)
    requires |bs| > 0 && Basename(bs[|bs| - 1].name) != bn
    ensures LastWith(bs, bn) == LastWith(bs[..|bs| - 1], bn)
  {
  }

  /** The entry a listed expected object creates. */
  function ExpectedEntry(b: Blob, bucket: string): Entry {
    Entry(b.md5, GsPath(bucket, b.name), None, None)
  }

  /** `outs` after the loop over the expected objects: one entry per base
      name, made from the last object listed with that base name. */
  function ExpectedEntries(bs: seq<Blob>, bucket: string): (outs: map<string, Entry>)
    ensures outs.Keys == Names(bs)
    ensures forall bn | bn in outs ::
              LastWith(bs, bn).Some? && outs[bn] == ExpectedEntry(bs[LastWith(bs, bn).value], bucket)
    decreases |bs|
  {
    if |bs| == 0 then map[]
    else
      var b := bs[|bs| - 1];
      var prev := ExpectedEntries(bs[..|bs| - 1], bucket);
      NamesStep(bs);
      prev[Basename(b.name) := ExpectedEntry(b, bucket)]
  }

  /** An entry with the actual object `b` recorded. */
  function Matched(e: Entry, b: Blob, bucket: string): Entry {
    e.(act := Some(b.md5), actPath := Some(GsPath(bucket, b.name)))
  }

  /** What the actual objects `bs` make of the entry for `bn`: the last of
      them with that base name is recorded, and nothing changes if there is
      none. */
  function AfterMatching(e: Entry, bs: seq<Blob>, bn: string, bucket: string): Entry {
    match LastWith(bs, bn)
    case None => e
    case Some(i) => Matched(e, bs[i], bucket)
  }

  /** One step of the inner loop over actual objects: an object whose base
      name has an entry records its checksum and path there; any other
      object is skipped. */
  function MatchOne(outs: map<string, Entry>, b: Blob, bucket: string): map<string, Entry> {
    var bn := Basename(b.name);
    if bn in outs then outs[bn := Matched(outs[bn], b, bucket)] else outs
  }

  /** Matching one more object `b` after `bs` takes each entry from what
      `bs` made of it to what `bs + [b]` makes of it. */
  lemma MatchOneStep(outs: map<string, Entry>, prev: map<string, Entry>, bs: seq<Blob>, bucket: string)
    requires |bs| > 0
    requires prev.Keys == outs.Keys
    requires forall bn | bn in prev :: prev[bn] == AfterMatching(outs[bn], bs[..|bs| - 1], bn, bucket)
    ensures var r := MatchOne(prev, bs[|bs| - 1], bucket);
            && r.Keys == outs.Keys
            && forall bn | bn in r :: r[bn] == AfterMatching(outs[bn], bs, bn, bucket)
  {
    var b := bs[|bs| - 1];
    var r := MatchOne(prev, b, bucket);
    forall bn | bn in r ensures r[bn] == AfterMatching(outs[bn], bs, bn, bucket) {
      if Basename(b.name) != bn {
        LastWithStep(bs, bn);
      }
    }
  }

  /** The inner loop run over all of `bs` in order: the keys never change,
      and each entry ends up recording the last object with its base name,
      or stays as it was if there is none. */
  function MatchAll(outs: map<string, Entry>, bs: seq<Blob>, bucket: string): (r: map<string, Entry>)
    ensures r.Keys == outs.Keys
    ensures forall bn | bn in r :: r[bn] == AfterMatching(outs[bn], bs, bn, bucket)
    decreases |bs|
  {
    if |bs| == 0 then outs
    else
      var prev := MatchAll(outs, bs[..|bs| - 1], bucket);
      MatchOneStep(outs, prev, bs, bucket);
      MatchOne(prev, bs[|bs| - 1], bucket)
  }

  /** Matching two listings one after the other is matching their
      concatenation. */
  lemma {:induction false} MatchAllAppend(outs: map<string, Entry>, xs: seq<Blob>, ys: seq<Blob>, bucket: string)
    ensures MatchAll(MatchAll(outs, xs, bucket), ys, bucket) == MatchAll(outs, xs + ys, bucket)
    decreases |ys|
  {
    if |ys| > 0 {
      MatchAllAppend(outs, xs, ys[..|ys| - 1], bucket);
      assert (xs + ys)[..|xs + ys| - 1] == xs + ys[..|ys| - 1];
      assert (xs + ys)[|xs + ys| - 1] == ys[|ys| - 1];
    } else {
      assert xs + ys == xs;
    }
  }

  /** The marker that makes a line of the input JSON name an output path. */
  function Marker(actBucket: string): string {
    "gs://" + actBucket + "/"
  }

  /** The listing prefix a line of the input JSON names, if any: the line
      must contain the marker; quotes and commas are deleted from the
      stripped line, it is split at colons followed by whitespace, and if
      there are at least two pieces the last one, with the marker removed
      and one trailing slash dropped, is the prefix. */
  function LinePrefix(actBucket: string, line: string): (r: Option<string>)
    ensures r.Some? ==> Contains(line, Marker(actBucket))
    ensures r.Some? ==> HasColonSpace(DropQuotesAndCommas(Strip(line)))
    ensures Contains(line, Marker(actBucket)) && HasColonSpace(DropQuotesAndCommas(Strip(line))) ==> r.Some?
  {
    if !Contains(line, Marker(actBucket)) then None
    else
      var cleaned := DropQuotesAndCommas(Strip(line));
      var m := SplitColonSpace(cleaned);
      SplitColonSpaceSpec(cleaned);
      if |m| > 1 then
        Some(DropTrailingSlash(RemoveAll(m[|m| - 1], Marker(actBucket))))
      else None
  }

  /** The line of an input JSON that names an output directory,
      `  "key": "gs://<bucket>/<path>/",`, yields `path` as its listing
      prefix, whatever the indentation, when neither the key nor the bucket
      nor the path holds a quote, a comma or a colon. */
  lemma LinePrefixOfEntry(indent: string, key: string, bucket: string, path: string)
    requires forall i :: 0 <= i < |indent| ==> IsSpace(indent[i])
    requires '"' !in key && ',' !in key && ':' !in key
    requires '"' !in bucket && ',' !in bucket && ':' !in bucket
    requires '"' !in path && ',' !in path && ':' !in path
    ensures LinePrefix(bucket, indent + "\"" + key + "\": \"" + Marker(bucket) + path + "/\",\n")
            == Some(path)
  {
    var m := Marker(bucket);
    var value := m + path + "/";
    var body := "\"" + key + "\": \"" + value + "\",";
    var line := indent + "\"" + key + "\": \"" + m + path + "/\",\n";
    assert line == indent + body + "\n";
    assert line == indent + "\"" + key + "\": \"" + value + "\",\n";
    EntryContainsMarker(indent, key, value, m);
    EntryStrip(indent, body);
    CleanValue(bucket, path);
    EntryClean(key, value);
    SplitColonSpacePair(key, value);
    MarkerOff(bucket, path);
    LinePrefixSteps(bucket, line, key, value, path);
  }

  /** The steps of `LinePrefix` on a line whose cleaned form is
      `key: value`. */
  lemma LinePrefixSteps(bucket: string, line: string, key: string, value: string, path: string)
    requires Contains(line, Marker(bucket))
    requires DropQuotesAndCommas(Strip(line)) == key + ": " + value
    requires SplitColonSpace(key + ": " + value) == [key, value]
    requires DropTrailingSlash(RemoveAll(value, Marker(bucket))) == path
    ensures LinePrefix(bucket, line) == Some(path)
  {
  }

  /** Removing the marker from `marker + path + "/"` and dropping the slash
      gives back `path` when `path` holds no colon. */
  lemma MarkerOff(bucket: string, path: string)
    requires ':' !in path
    ensures DropTrailingSlash(RemoveAll(Marker(bucket) + path + "/", Marker(bucket))) == path
  {
    var m := Marker(bucket);
    var value := m + path + "/";
    assert StartsWith(value, m);
    assert value[|m|..] == path + "/";
    assert ':' !in path + "/";
    NoMarkerIn(bucket, path + "/");
    RemoveAllChangesIffContains(path + "/", m);
    assert (path + "/")[..|path|] == path;
  }

  lemma EntryContainsMarker(indent: string, key: string, value: string, m: string)
    requires StartsWith(value, m)
    ensures Contains(indent + "\"" + key + "\": \"" + value + "\",\n", m)
  {
    var line := indent + "\"" + key + "\": \"" + value + "\",\n";
    var i := |indent + "\"" + key + "\": \""|;
    assert line[i..i + |m|] == value[..|m|];
    ContainsAt(line, m, i);
  }

  /** Stripping an indented line removes the indentation and the newline. */
  lemma EntryStrip(indent: string, body: string)
    requires forall i :: 0 <= i < |indent| ==> IsSpace(indent[i])
    requires |body| > 0 && body[0] == '"' && body[|body| - 1] == ','
    ensures Strip(indent + body + "\n") == body
  {
    var line := indent + body + "\n";
    assert line == indent + (body + "\n");
    assert (body + "\n")[0] == '"';
    StripLeftSkips(indent, body + "\n");
    assert IsSpace("\n"[0]) && !IsSpace(body[|body| - 1]);
    StripRightSkips(body, "\n");
    assert Strip(line) == StripRight(body + "\n");
  }

  /** Deleting the quotes and commas of `"key": "value",` leaves
      `key: value`. */
  lemma EntryClean(key: string, value: string)
    requires '"' !in key && ',' !in key
    requires DropQuotesAndCommas(value) == value
    ensures DropQuotesAndCommas("\"" + key + "\": \"" + value + "\",") == key + ": " + value
  {
    DropQuotesAndCommasKeepsClean(key);
    var q, sep, tail := "\"", "\": \"", "\",";
    assert DropQuotesAndCommas(q) == [] by {
      assert q[1..] == [];
    }
    assert DropQuotesAndCommas(sep) == ": " by {
      assert sep[1..] == ": \"" && sep[1..][1..] == " \"" && sep[1..][1..][1..] == "\"";
      assert sep[1..][1..][1..][1..] == [];
    }
    assert DropQuotesAndCommas(tail) == [] by {
      assert tail[1..] == "," && tail[1..][1..] == [];
    }
    DropQuotesAndCommasAppend(q, key);
    DropQuotesAndCommasAppend(q + key, sep);
    DropQuotesAndCommasAppend(q + key + sep, value);
    DropQuotesAndCommasAppend(q + key + sep + value, tail);
  }

  /** The directory value holds no quote, no comma and no separator, and
      starts with no whitespace. */
  lemma CleanValue(bucket: string, path: string)
    requires '"' !in bucket && ',' !in bucket && ':' !in bucket
    requires '"' !in path && ',' !in path && ':' !in path
    ensures var value := Marker(bucket) + path + "/";
            && DropQuotesAndCommas(value) == value
            && |value| > 0 && !IsSpace(value[0]) && !HasColonSpace(value)
  {
    var value := Marker(bucket) + path + "/";
    forall i | 0 <= i < |value| ensures value[i] != '"' && value[i] != ',' {
      ValueChar(bucket, path, i);
    }
    DropQuotesAndCommasKeepsClean(value);
    forall i | 0 <= i < |value| - 1 ensures !ColonSpaceAt(value, i) {
      ValueChar(bucket, path, i);
      if i == 2 {
        assert value[3] == '/';
      }
    }
  }

  /** Each character of the directory value: the literal marker characters,
      or one of the bucket or of the path followed by a slash. */
  lemma ValueChar(bucket: string, path: string, i: nat)
    requires i < |Marker(bucket) + path + "/"|
    ensures var c := (Marker(bucket) + path + "/")[i];
            if i < 5 then c == "gs://"[i]
            else if i < 5 + |bucket| then c in bucket
            else if i == 5 + |bucket| then c == '/'
            else c in path + "/"
  {
    var value := Marker(bucket) + path + "/";
    if i >= 6 + |bucket| {
      assert value[i] == (path + "/")[i - 6 - |bucket|];
    } else if i >= 5 {
      assert value[i] == (bucket + "/")[i - 5];
    }
  }

  /** A string without a colon never contains the marker. */
  lemma NoMarkerIn(bucket: string, s: string)
    requires ':' !in s
    ensures !Contains(s, Marker(bucket))
  {
    if Contains(s, Marker(bucket)) {
      assert Marker(bucket)[2] == ':';
      ContainsChars(s, Marker(bucket), ':');
    }
  }

  /** All actual objects the input's lines lead to, in the order the loops
      visit them: line by line, each line's listing in order. Every object
      comes from the listing of a line that yields a prefix, and lines that
      yield none lead to no object. */
  function ActualBlobs(lines: seq<string>, actBucket: string,
                       listBlobs: (string, string) -> seq<Blob>): (r: seq<Blob>)
    ensures forall b | b in r :: exists i :: 0 <= i < |lines| && LinePrefix(actBucket, lines[i]).Some?
                                           && b in listBlobs(actBucket, LinePrefix(actBucket, lines[i]).value)
    ensures (forall i | 0 <= i < |lines| :: LinePrefix(actBucket, lines[i]).None?) ==> r == []
    ensures forall i, b | 0 <= i < |lines| && b in LineBlobs(actBucket, lines[i], listBlobs) :: b in r
  {
    var f := LineBlobsOf(actBucket, listBlobs);
    JoinedSound(lines, f);
    JoinedComplete(lines, f);
    Joined(lines, f)
  }

  /** The objects one input line leads to: the listing under its prefix,
      or none. */
  function LineBlobs(actBucket: string, line: string, listBlobs: (string, string) -> seq<Blob>): seq<Blob> {
    match LinePrefix(actBucket, line)
    case None => []
    case Some(n) => listBlobs(actBucket, n)
  }

  function LineBlobsOf(actBucket: string, listBlobs: (string, string) -> seq<Blob>): string -> seq<Blob> {
    line => LineBlobs(actBucket, line, listBlobs)
  }

  /** The objects of each item in turn, `f` giving one item's objects. */
  function Joined<T>(items: seq<T>, f: T -> seq<Blob>): seq<Blob>
    decreases |items|
  {
    if |items| == 0 then []
    else Joined(items[..|items| - 1], f) + f(items[|items| - 1])
  }

  /** Every joined object comes from some item, and items without objects
      join to nothing. */
  lemma {:induction false} JoinedSound<T>(items: seq<T>, f: T -> seq<Blob>)
    ensures forall b | b in Joined(items, f) :: exists i :: 0 <= i < |items| && b in f(items[i])
    ensures (forall i | 0 <= i < |items| :: f(items[i]) == []) ==> Joined(items, f) == []
    decreases |items|
  {
    if |items| > 0 {
      var front := items[..|items| - 1];
      JoinedSound(front, f);
      assert forall i | 0 <= i < |front| :: front[i] == items[i];
    }
  }

  /** Every object of every item is joined. */
  lemma JoinedComplete<T>(items: seq<T>, f: T -> seq<Blob>)
    ensures forall i, b | 0 <= i < |items| && b in f(items[i]) :: b in Joined(items, f)
  {
    forall i, b | 0 <= i < |items| && b in f(items[i])
      ensures b in Joined(items, f)
    {
      JoinedAt(items, i, f);
    }
  }

  /** The objects of two runs of lines, one after the other, are those of
      the first run followed by those of the second: the lines are visited
      in order. */
  lemma ActualBlobsConcat(first: seq<string>, second: seq<string>, actBucket: string,
                          listBlobs: (string, string) -> seq<Blob>)
    ensures ActualBlobs(first + second, actBucket, listBlobs)
            == ActualBlobs(first, actBucket, listBlobs) + ActualBlobs(second, actBucket, listBlobs)
  {
    JoinedConcat(first, second, LineBlobsOf(actBucket, listBlobs));
  }

  /** Each line's objects sit, in place, between those of the lines before
      it and those of the lines after it; so every object listed under a
      line's prefix is among the objects scanned. */
  lemma ActualBlobsAt(lines: seq<string>, i: nat, actBucket: string, listBlobs: (string, string) -> seq<Blob>)
    requires i < |lines|
    ensures ActualBlobs(lines, actBucket, listBlobs)
            == ActualBlobs(lines[..i], actBucket, listBlobs) + LineBlobs(actBucket, lines[i], listBlobs)
               + ActualBlobs(lines[i + 1..], actBucket, listBlobs)
    ensures forall b | b in LineBlobs(actBucket, lines[i], listBlobs) :: b in ActualBlobs(lines, actBucket, listBlobs)
  {
    var f := LineBlobsOf(actBucket, listBlobs);
    JoinedAt(lines, i, f);
    assert f(lines[i]) == LineBlobs(actBucket, lines[i], listBlobs);
  }

  lemma JoinedAt<T>(items: seq<T>, i: nat, f: T -> seq<Blob>)
    requires i < |items|
    ensures Joined(items, f) == Joined(items[..i], f) + f(items[i]) + Joined(items[i + 1..], f)
  {
    var upTo := items[..i + 1];
    assert items == upTo + items[i + 1..];
    JoinedConcat(upTo, items[i + 1..], f);
    assert upTo[..i] == items[..i];
  }

  lemma JoinedConcat<T>(first: seq<T>, second: seq<T>, f: T -> seq<Blob>)
    ensures Joined(first + second, f) == Joined(first, f) + Joined(second, f)
  {
    var m := 0;
    assert first + second[..0] == first && second[..0] == [];
    while m < |second|
      invariant m <= |second| && JoinedSplit(first, second, m, f)
    {
      JoinedConcatStep(first, second, m, f);
      m := m + 1;
    }
    assert second[..m] == second;
  }

  /** One more item joins its own objects after those of the items before. */
  lemma JoinedSnoc<T>(items: seq<T>, item: T, f: T -> seq<Blob>)
    ensures Joined(items + [item], f) == Joined(items, f) + f(item)
  {
    var longer := items + [item];
    assert longer[..|longer| - 1] == items;
  }

  /** One more item of the second run keeps `JoinedSplit`. */
  lemma JoinedConcatStep<T>(first: seq<T>, second: seq<T>, m: nat, f: T -> seq<Blob>)
    requires m < |second| && JoinedSplit(first, second, m, f)
    ensures JoinedSplit(first, second, m + 1, f)
  {
    var item := second[m];
    assert first + second[..m + 1] == (first + second[..m]) + [item];
    assert second[..m + 1] == second[..m] + [item];
    JoinedSnoc(first + second[..m], item, f);
    JoinedSnoc(second[..m], item, f);
  }

  /** The first `m` items of `second` behind `first` join to the objects of
      each run in turn. */
  ghost predicate JoinedSplit<T>(first: seq<T>, second: seq<T>, m: nat, f: T -> seq<Blob>)
    requires m <= |second|
  {
    Joined(first + second[..m], f) == Joined(first, f) + Joined(second[..m], f)
  }



  /** `find_outputs(input_json)`: the expected objects' entries, with the
      actual objects matched in. The keys are exactly the expected base
      names, the expected checksum and path come from the last expected
      object with that base name, an actual checksum is recorded exactly
      when some actual object has that base name (the last one wins), and
      the actual checksum and path are always recorded together. */
  function FoundOutputs(inputJson: string, expBucket: string, actBucket: string,
                        listBlobs: (string, string) -> seq<Blob>,
                        readLines: string -> seq<string>): (outs: map<string, Entry>)
    ensures var expected := listBlobs(expBucket, ExpectedPrefix(inputJson));
            var actual := ActualBlobs(readLines(inputJson), actBucket, listBlobs);
            && outs.Keys == Names(expected)
            && forall bn | bn in outs ::
                 && LastWith(expected, bn).Some?
                 && outs[bn].exp == expected[LastWith(expected, bn).value].md5
                 && outs[bn].expPath == GsPath(expBucket, expected[LastWith(expected, bn).value].name)
                 && (outs[bn].act.Some? <==> bn in Names(actual))
                 && (outs[bn].act.Some? <==> outs[bn].actPath.Some?)
                 && (outs[bn].act.Some? ==>
                       outs[bn].act.value == actual[LastWith(actual, bn).value].md5
                       && outs[bn].actPath.value == GsPath(actBucket, actual[LastWith(actual, bn).value].name))
  {
    var expected := listBlobs(expBucket, ExpectedPrefix(inputJson));
    var actual := ActualBlobs(readLines(inputJson), actBucket, listBlobs);
    var outs := MatchAll(ExpectedEntries(expected, expBucket), actual, actBucket);
    forall bn | bn in outs
      ensures outs[bn].act.Some? <==> bn in Names(actual)
    {
      if bn in Names(actual) {
        var i :| 0 <= i < |actual| && Basename(actual[i].name) == bn;
        assert LastWith(actual, bn).Some?;
      }
    }
    outs
  }

  /** The first loop of `find_outputs`: an entry for every expected object,
      keyed by its base name. */
  method CollectExpected(expected: seq<Blob>, expBucket: string) returns (outs: map<string, Entry>)
    ensures outs == ExpectedEntries(expected, expBucket)
  {
    outs := map[];
    var i := 0;
    while i < |expected|
      invariant 0 <= i <= |expected|
      invariant outs == ExpectedEntries(expected[..i], expBucket)
    {
      var blob := expected[i];
      assert expected[..i + 1][..i] == expected[..i];
      outs := outs[Basename(blob.name) := ExpectedEntry(blob, expBucket)];
      i := i + 1;
    }
    assert expected[..i] == expected;
  }

  /** The inner loop of `find_outputs` over one listing of actual objects:
      an object whose base name has an entry records its checksum and path
      there, any other object is skipped with a warning. */
  method MatchListing(outs: map<string, Entry>, blobs: seq<Blob>, actBucket: string)
    returns (matched: map<string, Entry>)
    ensures matched == MatchAll(outs, blobs, actBucket)
  {
    matched := outs;
    var j := 0;
    while j < |blobs|
      invariant 0 <= j <= |blobs|
      invariant matched == MatchAll(outs, blobs[..j], actBucket)
    {
      var blob := blobs[j];
      var bn := Basename(blob.name);
      assert blobs[..j + 1][..j] == blobs[..j];
      if bn in matched {
        matched := matched[bn := Matched(matched[bn], blob, actBucket)];
      }
      j := j + 1;
    }
    assert blobs[..j] == blobs;
  }

  /** `find_outputs` as the source runs it: a loop over the expected
      listing, then a loop over the input's lines with an inner loop over
      each line's listing. */
  method FindOutputs(inputJson: string, expBucket: string, actBucket: string,
                     listBlobs: (string, string) -> seq<Blob>,
                     readLines: string -> seq<string>)
    returns (outs: map<string, Entry>)
    ensures outs == FoundOutputs(inputJson, expBucket, actBucket, listBlobs, readLines)
  {
    outs := CollectExpected(listBlobs(expBucket, ExpectedPrefix(inputJson)), expBucket);
    outs := ScanLines(outs, readLines(inputJson), actBucket, listBlobs);
  }

  /** The loop over the input's lines of `find_outputs`: each line that
      names a listing prefix has that listing matched in, in line order. */
  method ScanLines(start: map<string, Entry>, lines: seq<string>, actBucket: string,
                   listBlobs: (string, string) -> seq<Blob>)
    returns (outs: map<string, Entry>)
    ensures outs == MatchAll(start, ActualBlobs(lines, actBucket, listBlobs), actBucket)
  {
    outs := start;
    var l := 0;
    while l < |lines|
      invariant 0 <= l <= |lines|
      invariant outs == MatchAll(start, ActualBlobs(lines[..l], actBucket, listBlobs), actBucket)
    {
      ghost var seen := ActualBlobs(lines[..l], actBucket, listBlobs);
      assert lines[..l + 1][..l] == lines[..l];
      var prefix := LinePrefix(actBucket, lines[l]);
      if prefix.Some? {
        var blobs := listBlobs(actBucket, prefix.value);
        assert ActualBlobs(lines[..l + 1], actBucket, listBlobs) == seen + blobs;
        MatchAllAppend(start, seen, blobs, actBucket);
        outs := MatchListing(outs, blobs, actBucket);
      } else {
        assert ActualBlobs(lines[..l + 1], actBucket, listBlobs) == seen;
      }
      l := l + 1;
    }
    assert lines[..l] == lines;
  }

  /** The external comparisons `compare_contents` can run: `mash dist` on
      sequence files, sorted `samtools view` text of alignments, decompressed
      text without `fileDate` lines, and `pdftotext` output. */
  datatype Comparator = SequenceDistance | SortedAlignments | GzipText | PdfText

  /** FASTQ or FASTA, plain or gzipped. */
  predicate IsSequenceFile(path: string) {
    var ext := Extension(path);
    || ext == ".fastq" || EndsWith(path, ".fastq.gz") || EndsWith(path, ".fq.gz")
    || ext == ".fasta" || EndsWith(path, ".fasta.gz") || EndsWith(path, ".fa.gz")
  }

  /** The comparison chosen for an expected path, tried in the source's
      order: there is one exactly when the extension is one of the five the
      source knows. */
  function ComparatorFor(expPath: string): (r: Option<Comparator>)
    ensures r.Some? <==> Extension(expPath) in {".fastq", ".fasta", ".bam", ".gz", ".pdf"}
  {
    GzippedSequenceExtension(expPath);
    var ext := Extension(expPath);
    if IsSequenceFile(expPath) then Some(SequenceDistance)
    else if ext == ".bam" then Some(SortedAlignments)
    else if ext == ".gz" then Some(GzipText)
    else if ext == ".pdf" then Some(PdfText)
    else None
  }

  /** `compare_contents`: the chosen tool's exit status, or 1 when the
      extension is not one the source knows. */
  function CompareContents(expPath: string, actPath: string,
                           tool: (Comparator, string, string) -> int): (r: int)
    ensures ComparatorFor(expPath).None? ==> r == 1
  {
    match ComparatorFor(expPath)
    case None => 1
    case Some(c) => tool(c, expPath, actPath)
  }

  /** How one file is judged: an exempt file or one with equal checksums
      never counts; otherwise a missing actual file counts, an unknown
      extension counts (its comparison answers 1), and a known one counts
      exactly when its tool exits non-zero. */
  lemma MismatchSpec(name: string, e: Entry, tool: (Comparator, string, string) -> int)
    ensures IsExempt(name) || Some(e.exp) == e.act ==> !IsMismatch(name, e, tool)
    ensures !IsExempt(name) && Some(e.exp) != e.act && e.actPath.None? ==> IsMismatch(name, e, tool)
    ensures (!IsExempt(name) && Some(e.exp) != e.act && e.actPath.Some?
             && ComparatorFor(e.expPath).None?) ==> IsMismatch(name, e, tool)
    ensures (!IsExempt(name) && Some(e.exp) != e.act && e.actPath.Some?
             && ComparatorFor(e.expPath).Some?) ==>
              (IsMismatch(name, e, tool)
               <==> tool(ComparatorFor(e.expPath).value, e.expPath, e.actPath.value) != 0)
  {
  }

  /** Files that are never compared: images, sequencing summaries, indexes. */
  predicate IsExempt(name: string) {
    EndsWith(name, ".png") || EndsWith(name, "sequencing_summary.txt") || EndsWith(name, ".tbi")
  }

  /** A file counts as a mismatch when it is not exempt, its checksums
      differ, and either no actual file was found or the comparison exits
      with a non-zero status. */
  predicate IsMismatch(name: string, e: Entry, tool: (Comparator, string, string) -> int) {
    && !IsExempt(name)
    && Some(e.exp) != e.act
    && (e.actPath.None? || CompareContents(e.expPath, e.actPath.value, tool) != 0)
  }

  function MismatchedAmong(outs: map<string, Entry>, keys: set<string>,
                           tool: (Comparator, string, string) -> int): set<string> {
    set b | b in keys && b in outs && IsMismatch(b, outs[b], tool)
  }

  /** The mismatching files of a test. */
  function MismatchedNames(outs: map<string, Entry>, tool: (Comparator, string, string) -> int): set<string> {
    MismatchedAmong(outs, outs.Keys, tool)
  }

  lemma MismatchStep(outs: map<string, Entry>, done: set<string>, b: string,
                     tool: (Comparator, string, string) -> int)
    requires b in outs && b !in done
    ensures |MismatchedAmong(outs, done + {b}, tool)|
            == |MismatchedAmong(outs, done, tool)| + (if IsMismatch(b, outs[b], tool) then 1 else 0)
  {
    if IsMismatch(b, outs[b], tool) {
      assert MismatchedAmong(outs, done + {b}, tool) == MismatchedAmong(outs, done, tool) + {b};
    } else {
      assert MismatchedAmong(outs, done + {b}, tool) == MismatchedAmong(outs, done, tool);
    }
  }

  /** `compare_outputs`: counts the mismatching files, calling the content
      comparison only for non-exempt files with differing checksums and an
      actual path. */
  method CompareOutputs(outs: map<string, Entry>, tool: (Comparator, string, string) -> int)
    returns (numMismatch: nat)
    ensures numMismatch == |MismatchedNames(outs, tool)|
    ensures numMismatch <= |outs|
  {
    numMismatch := 0;
    var done: set<string> := {};
    while done != outs.Keys
      invariant done <= outs.Keys
      invariant numMismatch == |MismatchedAmong(outs, done, tool)|
      decreases outs.Keys - done
    {
      assert outs.Keys - done != {};
      var b :| b in outs.Keys - done;
      MismatchStep(outs, done, b, tool);
      var e := outs[b];
      if !EndsWith(b, ".png") && !EndsWith(b, "sequencing_summary.txt") && !EndsWith(b, ".tbi")
         && Some(e.exp) != e.act {
        if e.actPath.None? || CompareContents(e.expPath, e.actPath.value, tool) != 0 {
          numMismatch := numMismatch + 1;
        }
      }
      done := done + {b};
    }
    assert MismatchedNames(outs, tool) <= outs.Keys;
    SubsetCard(MismatchedNames(outs, tool), outs.Keys);
  }

  /** Each comparison is only chosen for paths with the matching ending,
      and compressed sequence files never go to the plain gzip comparison. */
  lemma ComparatorForSound(p: string)
    ensures ComparatorFor(p) == Some(SequenceDistance) ==>
              EndsWith(p, ".fastq") || EndsWith(p, ".fasta") || EndsWith(p, ".fastq.gz")
              || EndsWith(p, ".fq.gz") || EndsWith(p, ".fasta.gz") || EndsWith(p, ".fa.gz")
    ensures ComparatorFor(p) == Some(SortedAlignments) ==> EndsWith(p, ".bam")
    ensures ComparatorFor(p) == Some(GzipText) ==>
              EndsWith(p, ".gz") && !EndsWith(p, ".fastq.gz") && !EndsWith(p, ".fq.gz")
              && !EndsWith(p, ".fasta.gz") && !EndsWith(p, ".fa.gz")
    ensures ComparatorFor(p) == Some(PdfText) ==> EndsWith(p, ".pdf")
  {
    var ext := Extension(p);
    match ComparatorFor(p)
    case None =>
    case Some(SequenceDistance) =>
      if ext == ".fastq" || ext == ".fasta" { ExtensionEnds(p, ext); }
    case Some(SortedAlignments) => ExtensionEnds(p, ".bam");
    case Some(GzipText) => ExtensionEnds(p, ".gz");
    case Some(PdfText) => ExtensionEnds(p, ".pdf");
  }

  /** A path ends with its extension. */
  lemma ExtensionEnds(p: string, ext: string)
    requires Extension(p) == ext
    ensures EndsWith(p, ext)
  {
    ExtensionSpec(p);
  }

  /** A path that does not end with ".gz" is no compressed sequence file. */
  lemma NotGzipped(p: string)
    requires !EndsWith(p, ".gz")
    ensures !EndsWith(p, ".fastq.gz") && !EndsWith(p, ".fq.gz")
            && !EndsWith(p, ".fasta.gz") && !EndsWith(p, ".fa.gz")
  {
    if EndsWith(p, ".fastq.gz") { EndsWithTail(p, ".fastq", ".gz"); }
    if EndsWith(p, ".fq.gz") { EndsWithTail(p, ".fq", ".gz"); }
    if EndsWith(p, ".fasta.gz") { EndsWithTail(p, ".fasta", ".gz"); }
    if EndsWith(p, ".fa.gz") { EndsWithTail(p, ".fa", ".gz"); }
  }

  /** The comparison chosen for each extension the source knows: FASTQ and
      FASTA files, alignments and PDFs by their extension, and ".gz" files
      by sequence distance when compressed FASTQ or FASTA and as gzipped
      text otherwise. */
  lemma ComparatorByExtension(p: string)
    ensures Extension(p) == ".fastq" || Extension(p) == ".fasta" ==> ComparatorFor(p) == Some(SequenceDistance)
    ensures Extension(p) == ".bam" ==> ComparatorFor(p) == Some(SortedAlignments)
    ensures Extension(p) == ".pdf" ==> ComparatorFor(p) == Some(PdfText)
    ensures Extension(p) == ".gz" ==>
              ComparatorFor(p) == Some(if IsSequenceFile(p) then SequenceDistance else GzipText)
  {
    var ext := Extension(p);
    if ext == ".bam" || ext == ".pdf" {
      ExtensionEnds(p, ext);
      NotEndsWithLast(p, ".gz");
      NotGzipped(p);
    }
  }

  /** A compressed FASTQ or FASTA ending makes ".gz" the extension. */
  lemma GzippedSequenceExtension(p: string)
    ensures (|| EndsWith(p, ".fastq.gz") || EndsWith(p, ".fq.gz")
             || EndsWith(p, ".fasta.gz") || EndsWith(p, ".fa.gz")) ==> Extension(p) == ".gz"
  {
    if EndsWith(p, ".fastq.gz") {
      assert ".fastq.gz" == ".fastq" + ".gz";
      assert ".fastq"[1] != '.';
      ExtensionOfEnding(p, ".fastq", ".gz");
    } else if EndsWith(p, ".fq.gz") {
      assert ".fq.gz" == ".fq" + ".gz";
      assert ".fq"[1] != '.';
      ExtensionOfEnding(p, ".fq", ".gz");
    } else if EndsWith(p, ".fasta.gz") {
      assert ".fasta.gz" == ".fasta" + ".gz";
      assert ".fasta"[1] != '.';
      ExtensionOfEnding(p, ".fasta", ".gz");
    } else if EndsWith(p, ".fa.gz") {
      assert ".fa.gz" == ".fa" + ".gz";
      assert ".fa"[1] != '.';
      ExtensionOfEnding(p, ".fa", ".gz");
    }
  }

  /** Any other extension gets no comparison at all (and so counts as a
      mismatch). */
  lemma UnknownExtension(p: string)
    requires Extension(p) !in {".fastq", ".fasta", ".bam", ".gz", ".pdf"}
    ensures ComparatorFor(p) == None
  {
    GzippedSequenceExtension(p);
  }

  /** A hidden file whose name is only a dot and a dot-free word (such as
      `out/.bam`) has no extension, so no comparison is chosen for it and it
      counts as a mismatch. */
  lemma HiddenFileNoComparator(dir: string, name: string)
    requires '/' !in name && |name| > 0 && name[0] == '.' && '.' !in name[1..]
    ensures Extension(dir + "/" + name) == []
    ensures ComparatorFor(dir + "/" + name) == None
  {
    BasenameJoin(dir, name);
    forall d | 1 <= d < |name|
      ensures name[d] != '.'
    {
      assert name[d] == name[1..][d - 1];
    }
    UnknownExtension(dir + "/" + name);
  }

  /** The comparison chosen for a file `stem + ext` in any directory. */
  lemma ComparatorForJoin(dir: string, stem: string, ext: string)
    requires '/' !in stem && exists k :: 0 <= k < |stem| && stem[k] != '.'
    requires ext in {".fastq", ".fasta", ".bam", ".pdf", ".txt"}
    ensures ComparatorFor(dir + "/" + stem + ext)
            == if ext == ".bam" then Some(SortedAlignments)
               else if ext == ".pdf" then Some(PdfText)
               else if ext == ".txt" then None
               else Some(SequenceDistance)
  {
    var p := dir + "/" + stem + ext;
    assert '.' !in ext[1..];
    ExtensionOfJoin(dir, stem, ext);
    if ext == ".txt" {
      assert p[|p| - 1] == 't';
      NotEndsWithLast(p, ".gz");
      UnknownExtension(p);
    } else {
      ComparatorByExtension(p);
    }
  }

  /** For the outputs of a test: an expected file that no actual object
      matches counts as a mismatch unless it is exempt, whatever the
      comparison tools answer; an exempt file, or one whose actual checksum
      equals the expected one, never counts. */
  lemma FoundOutputsMismatches(inputJson: string, expBucket: string, actBucket: string,
                               listBlobs: (string, string) -> seq<Blob>,
                               readLines: string -> seq<string>,
                               tool: (Comparator, string, string) -> int, bn: string)
    requires bn in FoundOutputs(inputJson, expBucket, actBucket, listBlobs, readLines)
    ensures var outs := FoundOutputs(inputJson, expBucket, actBucket, listBlobs, readLines);
            var actual := ActualBlobs(readLines(inputJson), actBucket, listBlobs);
            && (!IsExempt(bn) && bn !in Names(actual) ==> bn in MismatchedNames(outs, tool))
            && (IsExempt(bn) || outs[bn].act == Some(outs[bn].exp) ==> bn !in MismatchedNames(outs, tool))
  {
  }

  /** An expected file that some object under an input line's prefix
      shares its base name with is found: its actual checksum and path are
      recorded. */
  lemma FoundWhenListed(inputJson: string, expBucket: string, actBucket: string,
                        listBlobs: (string, string) -> seq<Blob>, readLines: string -> seq<string>,
                        i: nat, blob: Blob)
    requires i < |readLines(inputJson)|
    requires blob in LineBlobs(actBucket, readLines(inputJson)[i], listBlobs)
    requires Basename(blob.name) in FoundOutputs(inputJson, expBucket, actBucket, listBlobs, readLines)
    ensures var outs := FoundOutputs(inputJson, expBucket, actBucket, listBlobs, readLines);
            outs[Basename(blob.name)].act.Some? && outs[Basename(blob.name)].actPath.Some?
  {
    var actual := ActualBlobs(readLines(inputJson), actBucket, listBlobs);
    ActualBlobsAt(readLines(inputJson), i, actBucket, listBlobs);
    var j :| 0 <= j < |actual| && actual[j] == blob;
    assert Basename(blob.name) in Names(actual);
  }

  /** No mismatch is counted exactly when every file is exempt, agrees in
      checksum, or has an actual copy the comparison accepts. */
  lemma NoMismatchIff(outs: map<string, Entry>, tool: (Comparator, string, string) -> int)
    ensures |MismatchedNames(outs, tool)| == 0 <==>
            forall b | b in outs :: IsExempt(b) || outs[b].act == Some(outs[b].exp)
                                    || (outs[b].actPath.Some? && CompareContents(outs[b].expPath, outs[b].actPath.value, tool) == 0)
  {
    if |MismatchedNames(outs, tool)| != 0 {
      var b :| b in MismatchedNames(outs, tool);
    } else {
      forall b | b in outs
        ensures !IsMismatch(b, outs[b], tool)
      {
        assert b !in MismatchedNames(outs, tool);
      }
    }
  }
}
