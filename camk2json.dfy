/** The intrinsics converter (`camk2json_model_free.py`): reads a 3x3
    camera matrix from a text file, lists the RGB images of a scene folder,
    and writes one entry per image stem holding the flattened matrix and a
    depth scale. */
module CamK2Json {
  import opened Base
  import opened Text
  import opened Paths
  import opened Ordering

  /** A non-empty line with no whitespace at either end. */
  predicate Trimmed(t: string) {
    t != [] && !IsSpace(t[0]) && !IsSpace(t[|t| - 1])
  }

  /** The stripped lines of the file that are not blank, in file order:
      every kept line is non-empty and trimmed. */
  function NonBlankLines(lines: seq<string>): (r: seq<string>)
    ensures |r| <= |lines|
    ensures forall t :: t in r ==> Trimmed(t)
  {
    if lines == [] then []
    else
      var rest := NonBlankLines(lines[1..]);
      var head := Strip(lines[0]);
      if head == [] then rest else [head] + rest
  }

  /** A line is kept, stripped, exactly when it is not blank. */
  lemma {:induction false} NonBlankLinesKeepsContent(lines: seq<string>)
    ensures forall ln :: ln in lines && !IsBlank(ln) ==> Strip(ln) in NonBlankLines(lines)
    ensures forall t :: t in NonBlankLines(lines) ==> exists ln :: ln in lines && !IsBlank(ln) && t == Strip(ln)
  {
    if lines != [] {
      NonBlankLinesKeepsContent(lines[1..]);
      assert forall ln :: ln in lines <==> ln == lines[0] || ln in lines[1..];
      var r := NonBlankLines(lines);
      var rest := NonBlankLines(lines[1..]);
      assert forall t :: t in r ==> t in rest || (t == Strip(lines[0]) && !IsBlank(lines[0]));
    }
  }

  /** The kept lines keep the file's order and multiplicity: the lines kept
      from two pieces of a file are those of the first piece followed by
      those of the second. */
  lemma {:induction false} NonBlankLinesAppend(a: seq<string>, b: seq<string>)
    ensures NonBlankLines(a + b) == NonBlankLines(a) + NonBlankLines(b)
    decreases |a|
  {
    if a == [] {
      assert a + b == b;
    } else {
      assert (a + b)[0] == a[0] && (a + b)[1..] == a[1..] + b;
      NonBlankLinesAppend(a[1..], b);
    }
  }

  /** One line on its own is kept, stripped, exactly when it is not
      blank. */
  lemma NonBlankLinesOfLine(ln: string)
    ensures NonBlankLines([ln]) == if IsBlank(ln) then [] else [Strip(ln)]
  {
    assert [ln][1..] == [];
  }

  /** `[float(x) for x in parts]`: the numbers in order, or the first token
      `float` rejects. `parse` stands for Python's `float` on one token. */
  function ParseNumbers(tokens: seq<string>, parse: string -> Option<real>): (r: Result<seq<real>>)
    ensures r.Ok? ==> |r.value| == |tokens| && forall c :: 0 <= c < |tokens| ==> parse(tokens[c]) == Some(r.value[c])
    ensures r.Err? ==> exists c :: 0 <= c < |tokens| && parse(tokens[c]).None? && r.error == NotANumber(tokens[c])
                                   && forall d :: 0 <= d < c ==> parse(tokens[d]).Some?
  {
    if tokens == [] then Ok([])
    else match parse(tokens[0])
      case None => Err(NotANumber(tokens[0]))
      case Some(x) =>
        var rest := ParseNumbers(tokens[1..], parse);
        if rest.Err? then
          var c :| 0 <= c < |tokens[1..]| && parse(tokens[1..][c]).None? && rest.error == NotANumber(tokens[1..][c])
                   && forall d :: 0 <= d < c ==> parse(tokens[1..][d]).Some?;
          assert parse(tokens[c + 1]).None? && forall d :: 0 <= d < c + 1 ==> parse(tokens[d]).Some? by {
            forall d | 0 <= d < c + 1 ensures parse(tokens[d]).Some? {
              if d > 0 { assert tokens[d] == tokens[1..][d - 1]; }
            }
          }
          Err(rest.error)
        else Ok([x] + rest.value)
  }

  /** One line of the matrix: exactly three whitespace-separated numbers;
      any other token count is an error naming the line. */
  function ParseRow(line: string, parse: string -> Option<real>): (r: Result<seq<real>>)
    ensures |Split(line)| != 3 ==> r == Err(WrongTokenCount(line))
    ensures r.Ok? <==> |Split(line)| == 3 && forall c :: 0 <= c < 3 ==> parse(Split(line)[c]).Some?
    ensures r.Ok? ==> |r.value| == 3 && forall c :: 0 <= c < 3 ==> parse(Split(line)[c]) == Some(r.value[c])
    ensures r.Err? && |Split(line)| == 3 ==>
              exists c :: 0 <= c < 3 && r.error == NotANumber(Split(line)[c]) && parse(Split(line)[c]).None?
                          && forall d :: 0 <= d < c ==> parse(Split(line)[d]).Some?
  {
    var parts := Split(line);
    if |parts| != 3 then Err(WrongTokenCount(line))
    else ParseNumbers(parts, parse)
  }

  /** The rows of the loop over the lines, in order: the first line that
      fails stops the reading with its error. */
  function ParseRows(lines: seq<string>, parse: string -> Option<real>): (r: Result<seq<seq<real>>>)
    ensures r.Ok? ==> |r.value| == |lines| && forall k :: 0 <= k < |lines| ==> ParseRow(lines[k], parse) == Ok(r.value[k])
    ensures r.Err? ==> exists k :: 0 <= k < |lines| && ParseRow(lines[k], parse) == Err(r.error)
                                   && forall j :: 0 <= j < k ==> ParseRow(lines[j], parse).Ok?
    decreases |lines|
  {
    if lines == [] then Ok([])
    else
      var init := lines[..|lines| - 1];
      var last := lines[|lines| - 1];
      var prefix := ParseRows(init, parse);
      assert forall k :: 0 <= k < |init| ==> lines[k] == init[k];
      if prefix.Err? then prefix
      else
        var row := ParseRow(last, parse);
        if row.Err? then
          assert ParseRow(lines[|init|], parse) == Err(row.error);
          Err(row.error)
        else
          var rows := prefix.value + [row.value];
          assert forall k :: 0 <= k < |init| ==> rows[k] == prefix.value[k];
          Ok(rows)
  }

  /** `[rows[r][c] for r in range(3) for c in range(3)]`. */
  function Flatten(rows: seq<seq<real>>): (k: seq<real>)
    requires |rows| == 3 && forall i :: 0 <= i < 3 ==> |rows[i]| == 3
    ensures |k| == 9 && forall i, c :: 0 <= i < 3 && 0 <= c < 3 ==> k[3 * i + c] == rows[i][c]
  {
    seq(9, n requires 0 <= n < 9 => rows[n / 3][n % 3])
  }

  /** `read_K_txt` on the lines of the file: the matrix has exactly three
      non-blank lines of exactly three numbers, and comes back flattened row
      by row; a line with another token count fails before the row count is
      looked at. */
  function ParseK(lines: seq<string>, parse: string -> Option<real>): (r: Result<seq<real>>)
    ensures r.Ok? ==> var rows := NonBlankLines(lines);
                      && |rows| == 3 && |r.value| == 9
                      && forall i, c :: 0 <= i < 3 && 0 <= c < 3 ==>
                           |Split(rows[i])| == 3 && parse(Split(rows[i])[c]) == Some(r.value[3 * i + c])
    ensures ParseRows(NonBlankLines(lines), parse).Ok? ==>
              (r.Err? <==> |NonBlankLines(lines)| != 3)
              && (r.Err? ==> r.error == WrongRowCount(|NonBlankLines(lines)|))
    ensures ParseRows(NonBlankLines(lines), parse).Err? ==>
              r == Err(ParseRows(NonBlankLines(lines), parse).error)
              && exists k :: 0 <= k < |NonBlankLines(lines)| && ParseRow(NonBlankLines(lines)[k], parse) == Err(r.error)
                             && forall j :: 0 <= j < k ==> ParseRow(NonBlankLines(lines)[j], parse).Ok?
  {
    var rows :- ParseRows(NonBlankLines(lines), parse);
    if |rows| != 3 then Err(WrongRowCount(|rows|))
    else Ok(Flatten(rows))
  }

  /** Once a prefix of the lines fails, reading the whole file fails with
      the same error: later lines are never looked at. */
  lemma {:induction false} ParseRowsStopsAtFailure(lines: seq<string>, i: nat, parse: string -> Option<real>)
    requires i <= |lines| && ParseRows(lines[..i], parse).Err?
    ensures ParseRows(lines, parse) == ParseRows(lines[..i], parse)
    decreases |lines| - i
  {
    if i == |lines| {
      assert lines[..i] == lines;
    } else {
      var init := lines[..|lines| - 1];
      assert init[..i] == lines[..i];
      ParseRowsStopsAtFailure(init, i, parse);
    }
  }

  /** The row loop of `read_K_txt`: parses the lines in order and stops at
      the first one that fails. */
  method ParseLines(lines: seq<string>, parse: string -> Option<real>) returns (r: Result<seq<seq<real>>>)
    ensures r == ParseRows(lines, parse)
  {
    var rows: seq<seq<real>> := [];
    for i := 0 to |lines|
      invariant ParseRows(lines[..i], parse) == Ok(rows)
    {
      assert lines[..i + 1][..i] == lines[..i];
      var row := ParseRow(lines[i], parse);
      if row.Err? {
        ParseRowsStopsAtFailure(lines, i + 1, parse);
        return Err(row.error);
      }
      rows := rows + [row.value];
    }
    assert lines[..|lines|] == lines;
    r := Ok(rows);
  }

  /** `read_K_txt`: an unreadable file raises; otherwise the lines are
      stripped, blank ones dropped, parsed one by one, and the row count is
      checked last. */
  method ReadKTxt(path: string, file: Option<seq<string>>, parse: string -> Option<real>) returns (r: Result<seq<real>>)
    ensures file.None? ==> r == Err(FileNotFound(path))
    ensures file.Some? ==> r == ParseK(file.value, parse)
  {
    if file.None? {
      return Err(FileNotFound(path));
    }
    var rows :- ParseLines(NonBlankLines(file.value), parse);
    if |rows| != 3 {
      return Err(WrongRowCount(|rows|));
    }
    r := Ok(Flatten(rows));
  }

  /** The patterns `list_rgb_images` globs for, in order. */
  const ImageExts: seq<string> := [".png", ".jpg", ".jpeg", ".bmp", ".tif", ".tiff"]

  /** An entry matches `*<ext>`: the name ends with the extension, case
      included, and `*` does not match a leading dot. */
  predicate Matches(name: string, ext: string) {
    EndsWith(name, ext) && !StartsWith(name, ".")
  }

  /** The positions, in listing order, of the entries that match `*<ext>`. */
  function GlobPositions(names: seq<string>, ext: string): (ix: seq<nat>)
    ensures forall k :: 0 <= k < |ix| ==> ix[k] < |names| && Matches(names[ix[k]], ext)
    ensures forall k, m :: 0 <= k < m < |ix| ==> ix[k] < ix[m]
    ensures forall i :: 0 <= i < |names| && Matches(names[i], ext) ==> i in ix
  {
    if names == [] then []
    else
      var n := |names| - 1;
      var front := GlobPositions(names[..n], ext);
      assert forall i :: 0 <= i < n ==> names[..n][i] == names[i];
      var ix := if Matches(names[n], ext) then front + [n] else front;
      PositionsStep(names, ext, front, ix);
      ix
  }

  /** Appending the last entry's position when it matches keeps the
      positions increasing and complete. */
  lemma PositionsStep(names: seq<string>, ext: string, front: seq<nat>, ix: seq<nat>)
    requires names != []
    requires forall k :: 0 <= k < |front| ==> front[k] < |names| - 1 && Matches(names[front[k]], ext)
    requires forall k, m :: 0 <= k < m < |front| ==> front[k] < front[m]
    requires forall i :: 0 <= i < |names| - 1 && Matches(names[i], ext) ==> i in front
    requires ix == if Matches(names[|names| - 1], ext) then front + [|names| - 1] else front
    ensures forall k :: 0 <= k < |ix| ==> ix[k] < |names| && Matches(names[ix[k]], ext)
    ensures forall k, m :: 0 <= k < m < |ix| ==> ix[k] < ix[m]
    ensures forall i :: 0 <= i < |names| && Matches(names[i], ext) ==> i in ix
  {
    var n := |names| - 1;
    assert forall k :: 0 <= k < |front| ==> ix[k] == front[k];
    forall i | 0 <= i < |names| && Matches(names[i], ext) ensures i in ix {
      if i < n {
        var k :| 0 <= k < |front| && front[k] == i;
        assert ix[k] == i;
      } else {
        assert ix[|ix| - 1] == n;
      }
    }
  }

  /** `glob(os.path.join(dir, "*" + ext))` on a folder listing: the k-th
      path comes from the k-th matching position, so every matching entry
      is globbed exactly once, in listing order. */
  function Glob(dir: string, names: seq<string>, ext: string): (r: seq<string>)
    ensures |r| == |GlobPositions(names, ext)| <= |names|
    ensures forall k :: 0 <= k < |r| ==> r[k] == Join(dir, names[GlobPositions(names, ext)[k]])
    ensures forall p :: p in r <==> exists n :: n in names && Matches(n, ext) && p == Join(dir, n)
  {
    if names == [] then []
    else
      var n := |names| - 1;
      var front := Glob(dir, names[..n], ext);
      var r := if Matches(names[n], ext) then front + [Join(dir, names[n])] else front;
      GlobStep(dir, names, ext, front, r);
      GlobbedAreTheMatches(dir, names, ext, r);
      r
  }

  /** One step of the glob: appending the last entry when it matches keeps
      the k-th path at the k-th matching position. */
  lemma GlobStep(dir: string, names: seq<string>, ext: string, front: seq<string>, r: seq<string>)
    requires names != []
    requires |front| == |GlobPositions(names[..|names| - 1], ext)|
    requires forall k :: 0 <= k < |front| ==>
               front[k] == Join(dir, names[..|names| - 1][GlobPositions(names[..|names| - 1], ext)[k]])
    requires r == if Matches(names[|names| - 1], ext) then front + [Join(dir, names[|names| - 1])] else front
    ensures |r| == |GlobPositions(names, ext)|
    ensures forall k :: 0 <= k < |r| ==> r[k] == Join(dir, names[GlobPositions(names, ext)[k]])
  {
    var n := |names| - 1;
    var fix := GlobPositions(names[..n], ext);
    var ix := GlobPositions(names, ext);
    assert ix == if Matches(names[n], ext) then fix + [n] else fix;
    forall k | 0 <= k < |front| ensures r[k] == Join(dir, names[ix[k]]) {
      assert ix[k] == fix[k] < n;
      assert names[..n][fix[k]] == names[fix[k]];
    }
  }

  /** A glob laid out along the matching positions holds every matching
      entry and nothing else. */
  lemma GlobbedAreTheMatches(dir: string, names: seq<string>, ext: string, r: seq<string>)
    requires |r| == |GlobPositions(names, ext)|
    requires forall k :: 0 <= k < |r| ==> r[k] == Join(dir, names[GlobPositions(names, ext)[k]])
    ensures forall p :: p in r <==> exists n :: n in names && Matches(n, ext) && p == Join(dir, n)
  {
    var ix := GlobPositions(names, ext);
    forall n | n in names && Matches(n, ext) ensures Join(dir, n) in r {
      var i :| 0 <= i < |names| && names[i] == n;
      var k :| 0 <= k < |ix| && ix[k] == i;
      assert r[k] == Join(dir, n);
    }
    forall p | p in r ensures exists n :: n in names && Matches(n, ext) && p == Join(dir, n) {
      var k :| 0 <= k < |r| && r[k] == p;
      assert names[ix[k]] in names;
    }
  }

  /** The globs of `exts`, one after the other. */
  function GlobAll(dir: string, names: seq<string>, exts: seq<string>): (r: seq<string>)
    ensures forall p :: p in r <==> exists n, e :: n in names && e in exts && Matches(n, e) && p == Join(dir, n)
    decreases |exts|
  {
    if exts == [] then []
    else
      var init := exts[..|exts| - 1];
      assert exts == init + [exts[|exts| - 1]];
      GlobAll(dir, names, init) + Glob(dir, names, exts[|exts| - 1])
  }

  /** `list_rgb_images`: extends a list with each pattern's matches, then
      sorts it. The result is in order and holds exactly the folder's
      entries whose name matches one of the image patterns. */
  method ListRgbImages(dir: string, names: seq<string>) returns (files: seq<string>)
    ensures Sorted(files)
    ensures files == Sort(GlobAll(dir, names, ImageExts))
    ensures forall p :: p in files <==> exists n, e :: n in names && e in ImageExts && Matches(n, e) && p == Join(dir, n)
    ensures Distinct(names) && PlainNames(names) ==> Distinct(files) && |files| == CountMatching(names, ImageExts)
  {
    var found: seq<string> := [];
    for i := 0 to |ImageExts|
      invariant found == GlobAll(dir, names, ImageExts[..i])
    {
      assert ImageExts[..i + 1][..i] == ImageExts[..i];
      found := found + Glob(dir, names, ImageExts[i]);
    }
    assert ImageExts[..|ImageExts|] == ImageExts;
    files := Sort(found);
    assert forall p :: p in files <==> p in found by {
      forall p ensures p in files <==> p in found {
        assert p in files <==> p in multiset(files);
      }
    }
    if Distinct(names) && PlainNames(names) {
      ImageExtsSuffixFree();
      GlobAllOnce(dir, names, ImageExts);
      SortKeepsDistinct(found);
    }
  }

  /** No entry name holds a separator, as in a folder listing. */
  predicate PlainNames(names: seq<string>) {
    forall i :: 0 <= i < |names| ==> '/' !in names[i]
  }

  /** The number of entries that match at least one of `exts`. */
  function CountMatching(names: seq<string>, exts: seq<string>): (c: nat)
    ensures c <= |names|
  {
    if names == [] then 0
    else
      var n := |names| - 1;
      CountMatching(names[..n], exts) + if exists e :: e in exts && Matches(names[n], e) then 1 else 0
  }

  /** No pattern's extension ends another's, so no entry matches two
      patterns. */
  predicate SuffixFree(exts: seq<string>) {
    forall i, j :: 0 <= i < |exts| && 0 <= j < |exts| && i != j ==> !EndsWith(exts[j], exts[i])
  }

  /** Two suffixes of one name: the shorter ends the longer. */
  lemma SuffixOfBoth(name: string, a: string, b: string)
    ensures EndsWith(name, a) && EndsWith(name, b) && |a| <= |b| ==> EndsWith(b, a)
  {
    if EndsWith(name, a) && EndsWith(name, b) && |a| <= |b| {
      forall t | 0 <= t < |a| ensures b[|b| - |a|..][t] == a[t] {
        assert b[|b| - |a| + t] == name[|name| - |a| + t];
      }
    }
  }

  lemma NotBoth(name: string, exts: seq<string>, i: nat, j: nat)
    requires SuffixFree(exts) && i < |exts| && j < |exts| && i != j
    ensures !(Matches(name, exts[i]) && Matches(name, exts[j]))
  {
    SuffixOfBoth(name, exts[i], exts[j]);
    SuffixOfBoth(name, exts[j], exts[i]);
  }

  /** The image patterns are suffix-free: ".tif" does not end ".tiff", nor
      ".jpg" ".jpeg". */
  lemma ImageExtsSuffixFree()
    ensures SuffixFree(ImageExts)
  {
    forall i, j | 0 <= i < |ImageExts| && 0 <= j < |ImageExts| && i != j
      ensures !EndsWith(ImageExts[j], ImageExts[i])
    {
      EndsWithHeads(ImageExts[j], ImageExts[i]);
    }
  }

  lemma EndsWithHeads(s: string, t: string)
    ensures EndsWith(s, t) && |t| >= 2 ==> s[|s| - |t|] == t[0] && s[|s| - |t| + 1] == t[1]
  {
    if EndsWith(s, t) && |t| >= 2 {
      assert s[|s| - |t|..][0] == t[0] && s[|s| - |t|..][1] == t[1];
    }
  }

  /** Distinct entry names give distinct paths in one folder. */
  lemma JoinedApart(dir: string, a: string, b: string)
    requires '/' !in a && '/' !in b && a != b
    ensures Join(dir, a) != Join(dir, b)
  {
    JoinPlainName(dir, a);
    JoinPlainName(dir, b);
  }

  /** A glob of a duplicate-free listing is duplicate-free, and it holds as
      many paths as there are matching entries. */
  lemma GlobOnce(dir: string, names: seq<string>, ext: string)
    requires Distinct(names) && PlainNames(names)
    ensures Distinct(Glob(dir, names, ext)) && |Glob(dir, names, ext)| == CountMatching(names, [ext])
  {
    var r := Glob(dir, names, ext);
    var ix := GlobPositions(names, ext);
    forall k, m | 0 <= k < m < |r| ensures r[k] != r[m] {
      JoinedApart(dir, names[ix[k]], names[ix[m]]);
    }
    PositionsCount(names, ext);
  }

  lemma {:induction false} PositionsCount(names: seq<string>, ext: string)
    ensures |GlobPositions(names, ext)| == CountMatching(names, [ext])
  {
    if names != [] {
      var n := |names| - 1;
      PositionsCount(names[..n], ext);
      assert (exists e :: e in [ext] && Matches(names[n], e)) <==> Matches(names[n], ext);
    }
  }

  /** Counting against `init + [last]` splits into counting against `init`
      and against `last`, when no entry matches two patterns. */
  lemma {:induction false} CountSplit(names: seq<string>, init: seq<string>, last: string)
    requires SuffixFree(init + [last])
    ensures CountMatching(names, init + [last]) == CountMatching(names, init) + CountMatching(names, [last])
  {
    if names != [] {
      var n := |names| - 1;
      CountSplit(names[..n], init, last);
      MatchesAnySplit(names[n], init, last);
    }
  }

  /** One entry counts once against `init + [last]` exactly when it counts
      once against `init` or against `last`, never both. */
  lemma MatchesAnySplit(x: string, init: seq<string>, last: string)
    requires SuffixFree(init + [last])
    ensures (exists e :: e in init + [last] && Matches(x, e))
              <==> (exists e :: e in init && Matches(x, e)) || Matches(x, last)
    ensures (exists e :: e in [last] && Matches(x, e)) <==> Matches(x, last)
    ensures !((exists e :: e in init && Matches(x, e)) && Matches(x, last))
  {
    var exts := init + [last];
    if exists e :: e in init && Matches(x, e) {
      var e :| e in init && Matches(x, e);
      var i :| 0 <= i < |init| && init[i] == e;
      assert exts[i] == e && exts[|init|] == last;
      NotBoth(x, exts, i, |init|);
    }
    assert forall e :: e in exts <==> e in init || e == last;
  }

  lemma {:induction false} CountNone(names: seq<string>)
    ensures CountMatching(names, []) == 0
  {
    if names != [] {
      CountNone(names[..|names| - 1]);
    }
  }

  /** With a duplicate-free listing and suffix-free patterns, the globs
      together hold every matching entry once: no duplicates, and as many
      paths as matching entries. */
  lemma {:induction false} GlobAllOnce(dir: string, names: seq<string>, exts: seq<string>)
    requires Distinct(names) && PlainNames(names) && SuffixFree(exts)
    ensures Distinct(GlobAll(dir, names, exts)) && |GlobAll(dir, names, exts)| == CountMatching(names, exts)
    decreases |exts|
  {
    if exts == [] {
      CountNone(names);
    } else {
      var L := |exts| - 1;
      var init, last := exts[..L], exts[L];
      assert forall i :: 0 <= i < L ==> init[i] == exts[i];
      GlobAllOnce(dir, names, init);
      GlobOnce(dir, names, last);
      assert exts == init + [last];
      CountSplit(names, init, last);
      var a, b := GlobAll(dir, names, init), Glob(dir, names, last);
      forall x, y | x in a && y in b ensures x != y {
        var n, e :| n in names && e in init && Matches(n, e) && x == Join(dir, n);
        var m :| m in names && Matches(m, last) && y == Join(dir, m);
        var i :| 0 <= i < L && init[i] == e;
        NotBoth(n, exts, i, L);
        if n != m {
          JoinedApart(dir, n, m);
        }
      }
      DistinctConcat(a, b);
    }
  }

  lemma DistinctConcat(a: seq<string>, b: seq<string>)
    requires Distinct(a) && Distinct(b) && forall x, y :: x in a && y in b ==> x != y
    ensures Distinct(a + b)
  {
    forall i, j | 0 <= i < j < |a + b| ensures (a + b)[i] != (a + b)[j] {
      if j < |a| {
        assert (a + b)[i] == a[i] && (a + b)[j] == a[j];
      } else if i < |a| {
        assert (a + b)[i] == a[i] && (a + b)[j] == b[j - |a|];
        assert a[i] in a && b[j - |a|] in b;
      } else {
        assert (a + b)[i] == b[i - |a|] && (a + b)[j] == b[j - |a|];
      }
    }
  }

  /** One entry of the output file. */
  datatype CameraEntry = CameraEntry(camK: seq<real>, depthScale: real)

  /** The output object: its keys in the order they were first inserted,
      which is the order the JSON writer keeps, and the entries. */
  datatype Scene = Scene(keys: seq<string>, entries: map<string, CameraEntry>)

  /** `os.path.splitext(os.path.basename(fp))[0]` of every file, in order. */
  function Stems(files: seq<string>): (r: seq<string>)
    ensures |r| == |files| && forall i :: 0 <= i < |files| ==> r[i] == Stem(files[i])
  {
    seq(|files|, i requires 0 <= i < |files| => Stem(files[i]))
  }

  /** The key of an image file "<dir>/<stem><ext>" is "<stem>" (so
      "rgb/000001.png" has key "000001"), for an extension that is a dot
      followed by no dot. */
  lemma KeyOfImage(dir: string, stem: string, ext: string)
    requires stem != [] && stem[0] != '.' && '/' !in stem
    requires ext != [] && ext[0] == '.' && '/' !in ext && '.' !in ext[1..]
    ensures Stem(Join(dir, stem + ext)) == stem
  {
    var name := stem + ext;
    assert forall t :: 0 <= t < |name| ==> name[t] == if t < |stem| then stem[t] else ext[t - |stem|];
    assert forall t :: |stem| < t < |name| ==> name[t] == ext[1..][t - |stem| - 1];
    JoinPlainName(dir, name);
    RootAtLastDot(name, |stem|);
    assert name[..|stem|] == stem;
  }

  /** The distinct values of `xs`, each kept where it first occurs: the
      order in which a dict receives its keys when `xs` is assigned in
      turn. It holds exactly the values of `xs`, each once. */
  function FirstOccurrences(xs: seq<string>): (r: seq<string>)
    ensures |r| <= |xs|
    ensures forall x :: x in r <==> x in xs
    ensures forall i, j :: 0 <= i < j < |r| ==> r[i] != r[j]
    decreases |xs|
  {
    if xs == [] then []
    else
      var init := xs[..|xs| - 1];
      var d := FirstOccurrences(init);
      assert xs == init + [xs[|xs| - 1]];
      if xs[|xs| - 1] in d then d else d + [xs[|xs| - 1]]
  }

  /** The stems listed are exactly the stems of the files. */
  lemma StemsOfFiles(files: seq<string>)
    ensures forall x :: x in Stems(files) ==> exists f :: f in files && Stem(f) == x
    ensures forall f :: f in files ==> Stem(f) in Stems(files)
  {
    var stems := Stems(files);
    forall x | x in stems ensures exists f :: f in files && Stem(f) == x {
      var k :| 0 <= k < |stems| && stems[k] == x;
      assert files[k] in files && Stem(files[k]) == x;
    }
    forall f | f in files ensures Stem(f) in stems {
      var k :| 0 <= k < |files| && files[k] == f;
      assert stems[k] == Stem(f);
    }
  }

  /** Keys holding the first occurrences of the stems are the set of the
      files' stems. */
  lemma KeysAreTheStems(files: seq<string>, keys: seq<string>, keySet: set<string>)
    requires keys == FirstOccurrences(Stems(files))
    requires forall key :: key in keys <==> key in keySet
    ensures keySet == set f | f in files :: Stem(f)
  {
    StemsOfFiles(files);
    forall x ensures x in keySet <==> x in set f | f in files :: Stem(f) {
      if x in keySet {
        var f :| f in files && Stem(f) == x;
      }
    }
  }

  /** Assigning one more key appends it unless it is already present. */
  lemma FirstOccurrencesSnoc(xs: seq<string>, i: nat)
    requires i < |xs|
    ensures var d := FirstOccurrences(xs[..i]);
            FirstOccurrences(xs[..i + 1]) == if xs[i] in d then d else d + [xs[i]]
  {
    assert xs[..i + 1][..i] == xs[..i];
  }

  /** Index of the first occurrence of `x` in `xs`. */
  function FirstIndex(xs: seq<string>, x: string): (k: nat)
    requires x in xs
    ensures k < |xs| && xs[k] == x && forall j :: 0 <= j < k ==> xs[j] != x
  {
    if xs[0] == x then 0 else 1 + FirstIndex(xs[1..], x)
  }

  /** The keys come in the order in which the values first occur. */
  lemma {:induction false} FirstOccurrencesInOrder(xs: seq<string>)
    ensures forall i, j :: 0 <= i < j < |FirstOccurrences(xs)| ==>
              FirstIndex(xs, FirstOccurrences(xs)[i]) < FirstIndex(xs, FirstOccurrences(xs)[j])
    decreases |xs|
  {
    if xs != [] {
      var init := xs[..|xs| - 1];
      var last := xs[|xs| - 1];
      var d := FirstOccurrences(init);
      var r := FirstOccurrences(xs);
      FirstOccurrencesInOrder(init);
      assert xs == init + [last];
      forall x | x in init ensures FirstIndex(xs, x) == FirstIndex(init, x) {
        var k := FirstIndex(init, x);
        assert xs[k] == x;
        assert forall j :: 0 <= j < k ==> xs[j] == init[j];
      }
      if last !in d {
        assert r == d + [last];
        assert last !in init;
        assert FirstIndex(xs, last) == |xs| - 1;
      }
    }
  }

  /** The key loop of `main`: one entry per image stem, every entry the
      same matrix and scale; images sharing a stem share one key, placed
      where the stem first occurs. */
  method BuildScene(files: seq<string>, camK: seq<real>, depthScale: real) returns (scene: Scene)
    ensures scene.entries.Keys == set f | f in files :: Stem(f)
    ensures forall key :: key in scene.entries ==> scene.entries[key] == CameraEntry(camK, depthScale)
    ensures |scene.keys| <= |files|
    ensures forall i, j :: 0 <= i < j < |scene.keys| ==> scene.keys[i] != scene.keys[j]
    ensures forall key :: key in scene.keys <==> key in scene.entries
    ensures scene.keys == FirstOccurrences(Stems(files))
  {
    var stems := Stems(files);
    var keys: seq<string> := [];
    var entries: map<string, CameraEntry> := map[];
    for i := 0 to |stems|
      invariant keys == FirstOccurrences(stems[..i])
      invariant forall key :: key in keys <==> key in entries
      invariant forall key :: key in entries ==> entries[key] == CameraEntry(camK, depthScale)
    {
      var key := stems[i];  // the stem of files[i]
      FirstOccurrencesSnoc(stems, i);
      if key !in entries {
        keys := keys + [key];
      }
      entries := entries[key := CameraEntry(camK, depthScale)];
    }
    assert stems[..|stems|] == stems;
    KeysAreTheStems(files, keys, entries.Keys);
    scene := Scene(keys, entries);
  }

  /** What the converter sees of the file system: folders with their
      entries, readable text files with their lines, and the paths it cannot
      write to. */
  datatype CamEnv = CamEnv(dirs: map<string, seq<string>>, textFiles: map<string, seq<string>>,
                           unwritable: set<string>)

  /** The written output file. */
  datatype SceneFile = SceneFile(path: string, scene: Scene)

  /** The folder `main` reads images from: `--rgb_dir`, else `<data_dir>/rgb`. */
  function RgbDir(dataDir: string, rgbDir: Option<string>): (r: string)
    ensures rgbDir.Some? ==> r == rgbDir.value
    ensures rgbDir.None? ==> r == dataDir + (if dataDir == [] || dataDir[|dataDir| - 1] == '/' then "" else "/") + "rgb"
    ensures rgbDir.None? ==> StartsWith(r, dataDir) && Basename(r) == "rgb"
  {
    if rgbDir.Some? then rgbDir.value
    else
      JoinPlainName(dataDir, "rgb");
      Join(dataDir, "rgb")
  }

  /** The file `main` writes: `--out`, else `<data_dir>/scene_camera.json`. */
  function OutPath(dataDir: string, out: Option<string>): (r: string)
    ensures out.Some? ==> r == out.value
    ensures out.None? ==>
              r == dataDir + (if dataDir == [] || dataDir[|dataDir| - 1] == '/' then "" else "/") + "scene_camera.json"
    ensures out.None? ==> StartsWith(r, dataDir) && Basename(r) == "scene_camera.json"
  {
    if out.Some? then out.value
    else
      var name := "scene_camera.json";
      assert forall i :: 0 <= i < |name| ==> name[i] != '/';
      JoinPlainName(dataDir, name);
      Join(dataDir, name)
  }

  /** `main`: a missing image folder fails before anything is read; then
      the matrix is read, the images listed, and the scene written. */
  method RunCamK2Json(env: CamEnv, dataDir: string, camKPath: string, rgbDir: Option<string>,
                      out: Option<string>, depthScale: real, parse: string -> Option<real>)
    returns (r: Result<SceneFile>)
    ensures RgbDir(dataDir, rgbDir) !in env.dirs ==> r == Err(FileNotFound(RgbDir(dataDir, rgbDir)))
    ensures RgbDir(dataDir, rgbDir) in env.dirs && camKPath !in env.textFiles ==> r == Err(FileNotFound(camKPath))
    ensures RgbDir(dataDir, rgbDir) in env.dirs && camKPath in env.textFiles && ParseK(env.textFiles[camKPath], parse).Err? ==>
              r == Err(ParseK(env.textFiles[camKPath], parse).error)
    ensures RgbDir(dataDir, rgbDir) in env.dirs && camKPath in env.textFiles && ParseK(env.textFiles[camKPath], parse).Ok? ==>
              && (r.Ok? <==> OutPath(dataDir, out) !in env.unwritable)
              && (OutPath(dataDir, out) in env.unwritable ==> r == Err(WriteFailed(OutPath(dataDir, out))))
    ensures r.Ok? ==>
              && RgbDir(dataDir, rgbDir) in env.dirs && camKPath in env.textFiles
              && ParseK(env.textFiles[camKPath], parse).Ok?
              && r.value.path == OutPath(dataDir, out) && OutPath(dataDir, out) !in env.unwritable
              && var images := Sort(GlobAll(RgbDir(dataDir, rgbDir), env.dirs[RgbDir(dataDir, rgbDir)], ImageExts));
                 && r.value.scene.keys == FirstOccurrences(Stems(images))
                 && r.value.scene.entries.Keys == (set f | f in images :: Stem(f))
                 && forall key :: key in r.value.scene.entries ==>
                      r.value.scene.entries[key] == CameraEntry(ParseK(env.textFiles[camKPath], parse).value, depthScale)
  {
    var rgb := RgbDir(dataDir, rgbDir);
    if rgb !in env.dirs {
      return Err(FileNotFound(rgb));
    }
    var outJson := OutPath(dataDir, out);
    var file := if camKPath in env.textFiles then Some(env.textFiles[camKPath]) else None;
    var camK :- ReadKTxt(camKPath, file, parse);
    var images := ListRgbImages(rgb, env.dirs[rgb]);
    var scene := BuildScene(images, camK, depthScale);
    if outJson in env.unwritable {
      return Err(WriteFailed(outJson));
    }
    r := Ok(SceneFile(outJson, scene));
  }
}
