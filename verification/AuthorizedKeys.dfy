/** Merging one managed key into an `authorized_keys` file. */
module AuthorizedKeys {
  import opened Prelude
  import opened Text

  const MAX_FILE_BYTES: nat := 1024 * 1024

  datatype Error = Forbidden | BadDate | NotUtf8 | MalformedEntry | MalformedMarker | Duplicate

  datatype Merge = Unchanged(file: string) | Replaced(file: string)

  // ---- Lines ----------------------------------------------------------------------

  /** Length of the longest prefix without `c`. */
  function Until(s: string, c: char): (n: nat)
    ensures n <= |s| && c !in s[..n] && (n < |s| ==> s[n] == c)
  {
    if s == [] || s[0] == c then 0
    else
      var n := Until(s[1..], c);
      assert s[..n + 1] == [s[0]] + s[1..][..n];
      n + 1
  }

  /** `str::lines` on text without carriage returns. */
  function Lines(s: string): seq<string> {
    if s == [] then []
    else
      var n := Until(s, '\n');
      if n == |s| then [s] else [s[..n]] + Lines(s[n + 1..])
  }

  function Unlines(lines: seq<string>): string {
    if lines == [] then [] else lines[0] + "\n" + Unlines(lines[1..])
  }

  predicate OneLine(s: string) {
    '\n' !in s
  }

  lemma {:induction false} LinesAreLines(s: string)
    ensures forall l :: l in Lines(s) ==> OneLine(l) && forall c :: c in l ==> c in s
  {
    if s != [] {
      var n := Until(s, '\n');
      if n < |s| { LinesAreLines(s[n + 1..]); }
    }
  }

  lemma {:induction false} UntilFound(a: string, c: char, rest: string)
    requires c !in a
    ensures Until(a + [c] + rest, c) == |a|
  {
    var s := a + [c] + rest;
    var n := Until(s, c);
    assert s[|a|] == c && forall i :: 0 <= i < |a| ==> s[i] == a[i];
    forall i | 0 <= i < n ensures s[i] != c { assert s[..n][i] == s[i]; }
  }

  lemma {:induction false} LinesOfUnlines(lines: seq<string>)
    requires forall l :: l in lines ==> OneLine(l)
    ensures Lines(Unlines(lines)) == lines
  {
    if lines != [] {
      LinesOfUnlines(lines[1..]);
      assert OneLine(lines[0]);
      UntilFound(lines[0], '\n', Unlines(lines[1..]));
      var s := lines[0] + "\n" + Unlines(lines[1..]);
      assert s[..|lines[0]|] == lines[0] && s[|lines[0]| + 1..] == Unlines(lines[1..]);
    }
  }

  lemma {:induction false} UnlinesIsJoin(lines: seq<string>)
    requires lines != []
    ensures Join(lines, "\n") + "\n" == Unlines(lines)
  {
    if |lines| == 1 {
      assert Unlines(lines) == lines[0] + "\n" + Unlines([]);
    } else {
      UnlinesIsJoin(lines[1..]);
      assert Join(lines, "\n") + "\n" == lines[0] + "\n" + (Join(lines[1..], "\n") + "\n");
    }
  }

  lemma {:induction false} UnlinesChars(lines: seq<string>)
    ensures forall c :: c in Unlines(lines) ==> c == '\n' || exists l :: l in lines && c in l
  {
    if lines != [] { UnlinesChars(lines[1..]); }
  }

  // ---- Fields and substrings ------------------------------------------------------

  predicate White(c: char) {
    c == ' ' || c == '\t' || c == '\n' || c == '\r' || c == 12 as char
  }

  /** A non-empty text without ASCII white space. */
  predicate Solid(s: string) {
    s != [] && forall c :: c in s ==> !White(c)
  }

  function SolidPrefix(s: string): (n: nat)
    ensures n <= |s| && (forall c :: c in s[..n] ==> !White(c)) && (n < |s| ==> White(s[n]))
    ensures s != [] && !White(s[0]) ==> n > 0
  {
    if s == [] || White(s[0]) then 0
    else
      var n := SolidPrefix(s[1..]);
      assert s[..n + 1] == [s[0]] + s[1..][..n];
      n + 1
  }

  /** `split_ascii_whitespace`. */
  function Fields(s: string): (r: seq<string>)
    ensures forall f :: f in r ==> Solid(f)
  {
    if s == [] then []
    else if White(s[0]) then Fields(s[1..])
    else
      var n := SolidPrefix(s);
      [s[..n]] + Fields(s[n..])
  }

  predicate Contains(s: string, p: string) {
    p <= s || (s != [] && Contains(s[1..], p))
  }

  lemma {:induction false} ContainsMiddle(a: string, p: string, b: string)
    ensures Contains(a + p + b, p)
  {
    if a == [] {
      assert a + p + b == p + b;
    } else {
      ContainsMiddle(a[1..], p, b);
      assert (a + p + b)[1..] == a[1..] + p + b;
    }
  }

  /** A line in which a field begins with the prefix contains the prefix. */
  lemma {:induction false} FieldContained(s: string, p: string, f: string)
    requires f in Fields(s) && p <= f
    ensures Contains(s, p)
    decreases |s|
  {
    if White(s[0]) {
      FieldContained(s[1..], p, f);
    } else {
      var n := SolidPrefix(s);
      if f == s[..n] {
        assert p <= s;
      } else {
        FieldContained(s[n..], p, f);
        ContainsLater(s, n, p);
      }
    }
  }

  lemma {:induction false} ContainsLater(s: string, n: nat, p: string)
    requires n <= |s| && Contains(s[n..], p)
    ensures Contains(s, p)
  {
    if n > 0 {
      assert s[1..][n - 1..] == s[n..];
      ContainsLater(s[1..], n - 1, p);
    } else {
      assert s[n..] == s;
    }
  }

  lemma SolidThen(f: string, rest: string)
    requires Solid(f) && (rest != [] ==> White(rest[0]))
    ensures Fields(f + rest) == [f] + Fields(rest)
  {
    var s := f + rest;
    var n := SolidPrefix(s);
    forall i | 0 <= i < |f| ensures !White(s[i]) { assert s[i] == f[i]; }
    forall i | 0 <= i < n ensures !White(s[i]) { assert s[..n][i] == s[i]; }
    assert rest != [] ==> s[|f|] == rest[0];
    assert s[..|f|] == f && s[|f|..] == rest;
  }

  lemma SpaceThen(rest: string)
    ensures Fields(" " + rest) == Fields(rest)
  {
    assert (" " + rest)[1..] == rest;
  }

  lemma ThreeFields(a: string, b: string, c: string)
    requires Solid(a) && Solid(b) && Solid(c)
    ensures Fields(a + " " + b + " " + c) == [a, b, c]
  {
    assert a + " " + b + " " + c == a + (" " + (b + (" " + c)));
    SolidThen(a, " " + (b + (" " + c)));
    SpaceThen(b + (" " + c));
    SolidThen(b, " " + c);
    SpaceThen(c);
    SolidThen(c, []);
    assert c + [] == c;
  }

  // ---- Marked lines ---------------------------------------------------------------

  predicate ValidDate(s: string) {
    |s| == 10
    && forall i :: 0 <= i < |s| ==> if i == 4 || i == 7 then s[i] == '-' else '0' <= s[i] <= '9'
  }

  /** `validate_marked_line`. */
  function LineError(line: string, prefix: string): Option<Error> {
    var fields := Fields(line);
    if |fields| != 3 || !StartsWith(fields[0], "ssh-") || !StartsWith(fields[2], prefix) then Some(MalformedEntry)
    else if !ValidDate(fields[2][|prefix|..]) then Some(BadDate)
    else None
  }

  /** The first two fields of the line spell the key. */
  predicate Holds(line: string, key: string) {
    var fields := Fields(line);
    Join(if |fields| > 2 then fields[..2] else fields, " ") == key
  }

  /** The second marker check: a field begins with the prefix. */
  predicate Misplaced(line: string, prefix: string) {
    Contains(line, "nix-secrets:") && exists i :: 0 <= i < |Fields(line)| && StartsWith(Fields(line)[i], prefix)
  }

  /** Why the loop over the lines stops early, if it does. */
  function FirstError(lines: seq<string>, prefix: string): Option<Error> {
    if lines == [] then None
    else if Contains(lines[0], prefix) then
      if LineError(lines[0], prefix).Some? then LineError(lines[0], prefix) else FirstError(lines[1..], prefix)
    else if Misplaced(lines[0], prefix) then Some(MalformedMarker)
    else FirstError(lines[1..], prefix)
  }

  function Marked(prefix: string): string -> bool {
    line => Contains(line, prefix)
  }

  function Unmarked(prefix: string): string -> bool {
    line => !Contains(line, prefix)
  }

  /** The second marker check never fires; the loop succeeds exactly when every
      marked line is well formed. */
  lemma {:induction false} ErrorsExactly(lines: seq<string>, prefix: string)
    ensures FirstError(lines, prefix) != Some(MalformedMarker)
    ensures FirstError(lines, prefix) == None <==>
      forall l :: l in lines && Contains(l, prefix) ==> LineError(l, prefix) == None
  {
    if lines != [] {
      ErrorsExactly(lines[1..], prefix);
      assert lines == [lines[0]] + lines[1..];
      if Misplaced(lines[0], prefix) {
        var i :| 0 <= i < |Fields(lines[0])| && StartsWith(Fields(lines[0])[i], prefix);
        FieldContained(lines[0], prefix, Fields(lines[0])[i]);
      }
    }
  }

  // ---- The merge ------------------------------------------------------------------

  function Desired(key: string, prefix: string, date: string): string {
    key + " " + prefix + date
  }

  predicate Readable(file: string) {
    |file| <= MAX_FILE_BYTES && '\0' !in file && '\r' !in file
  }

  /** What a merge returns; `utf8` is `str::from_utf8`. */
  function Merged(file: string, prefix: string, key: string, date: string, utf8: string -> bool): Result<Merge, Error> {
    if !Readable(file) then Err(Forbidden)
    else if !ValidDate(date) then Err(BadDate)
    else if !utf8(file) then Err(NotUtf8)
    else
      var lines := Lines(file);
      var marked := Filter(lines, Marked(prefix));
      if FirstError(lines, prefix).Some? then Err(FirstError(lines, prefix).value)
      else if |marked| > 1 then Err(Duplicate)
      else if |marked| == 1 && Holds(marked[0], key) then Ok(Unchanged(file))
      else Ok(Replaced(Unlines(Filter(lines, Unmarked(prefix)) + [Desired(key, prefix, date)])))
  }

  /** `merge_authorized_keys`. */
  method MergeAuthorizedKeys(file: string, prefix: string, key: string, date: string, utf8: string -> bool)
    returns (r: Result<Merge, Error>)
    ensures r == Merged(file, prefix, key, date, utf8)
  {
    if |file| > MAX_FILE_BYTES || '\0' in file || '\r' in file {
      return Err(Forbidden);
    }
    if !ValidDate(date) {
      return Err(BadDate);
    }
    if !utf8(file) {
      return Err(NotUtf8);
    }
    var all := Lines(file);
    var lines: seq<string> := [];
    var markerCount := 0;
    var alreadyCurrent := false;
    for i := 0 to |all|
      invariant FirstError(all, prefix) == FirstError(all[i..], prefix)
      invariant lines == Filter(all[..i], Unmarked(prefix))
      invariant markerCount == |Filter(all[..i], Marked(prefix))|
      invariant markerCount == 0 ==> !alreadyCurrent
      invariant markerCount == 1 ==> alreadyCurrent == Holds(Filter(all[..i], Marked(prefix))[0], key)
    {
      var line := all[i];
      assert all[..i + 1] == all[..i] + [line] && all[i..][0] == line && all[i..][1..] == all[i + 1..];
      FilterSnoc(all[..i], line, Unmarked(prefix));
      FilterSnoc(all[..i], line, Marked(prefix));
      if Contains(line, prefix) {
        markerCount := markerCount + 1;
        var error := LineError(line, prefix);
        if error.Some? {
          return Err(error.value);
        }
        alreadyCurrent := Holds(line, key);
        continue;
      }
      if Misplaced(line, prefix) {
        return Err(MalformedMarker);
      }
      lines := lines + [line];
    }
    assert all[..|all|] == all;
    if markerCount > 1 {
      return Err(Duplicate);
    }
    if alreadyCurrent {
      return Ok(Unchanged(file));
    }
    lines := lines + [Desired(key, prefix, date)];
    UnlinesIsJoin(lines);
    r := Ok(Replaced(Join(lines, "\n") + "\n"));
  }

  // ---- What a successful merge leaves ---------------------------------------------

  /** A key of two fields, as `ssh-keygen` prints it without a comment. */
  predicate WellFormedKey(key: string) {
    |Fields(key)| == 2 && key == Fields(key)[0] + " " + Fields(key)[1] && StartsWith(Fields(key)[0], "ssh-")
    && '\0' !in key
  }

  predicate WellFormedPrefix(prefix: string) {
    Solid(prefix) && '\0' !in prefix
  }

  /** Facts of UTF-8: ASCII text is valid, concatenation keeps validity, and so does
      cutting at a new line. */
  ghost predicate Lawful(utf8: string -> bool) {
    (forall s: string :: (forall c :: c in s ==> c < 128 as char) ==> utf8(s))
    && (forall a, b :: utf8(a) && utf8(b) ==> utf8(a + b))
    && (forall a: string, b: string :: utf8(a + "\n" + b) ==> utf8(a) && utf8(b))
  }

  /** Some predicate obeys these laws. */
  lemma LawfulExists()
    ensures Lawful((s: string) => true)
  {
  }

  lemma DesiredLine(key: string, prefix: string, date: string)
    requires WellFormedKey(key) && WellFormedPrefix(prefix) && ValidDate(date)
    ensures
      var d := Desired(key, prefix, date);
      Contains(d, prefix) && LineError(d, prefix) == None && OneLine(d) && '\0' !in d && '\r' !in d
    ensures forall other :: Holds(Desired(key, prefix, date), other) <==> other == key
  {
    var d, f := Desired(key, prefix, date), Fields(key);
    ContainsMiddle(key + " ", prefix, date);
    assert d == f[0] + " " + f[1] + " " + (prefix + date);
    assert forall c :: c in date ==> c == '-' || '0' <= c <= '9';
    assert Solid(prefix + date);
    ThreeFields(f[0], f[1], prefix + date);
    assert (prefix + date)[|prefix|..] == date;
    assert [f[0], f[1], prefix + date][..2] == [f[0], f[1]];
    JoinTwo(f[0], f[1]);
    assert forall c :: c in d ==> c in f[0] || c in f[1] || c in prefix || c in date || c == ' ';
  }

  lemma JoinTwo(a: string, b: string)
    ensures Join([a, b], " ") == a + " " + b
  {
    assert [a, b][1..] == [b];
    assert Join([b], " ") == b;
  }

  lemma {:induction false} FilterAll<T(!new)>(s: seq<T>, keep: T -> bool)
    ensures (forall x :: x in s ==> keep(x)) ==> Filter(s, keep) == s
    ensures (forall x :: x in s ==> !keep(x)) ==> Filter(s, keep) == []
  {
    if s != [] { FilterAll(s[1..], keep); }
  }

  /** The lines of a replaced file. */
  lemma ReplacedLines(file: string, prefix: string, key: string, date: string)
    requires WellFormedKey(key) && WellFormedPrefix(prefix) && ValidDate(date)
    ensures
      var kept, d := Filter(Lines(file), Unmarked(prefix)), Desired(key, prefix, date);
      var lines := Lines(Unlines(kept + [d]));
      lines == kept + [d] && Filter(lines, Unmarked(prefix)) == kept && Filter(lines, Marked(prefix)) == [d]
      && FirstError(lines, prefix) == None
  {
    hide Desired, LineError, Contains, Lines, WellFormedKey;
    var kept, d := Filter(Lines(file), Unmarked(prefix)), Desired(key, prefix, date);
    DesiredLine(key, prefix, date);
    LinesAreLines(file);
    LinesOfUnlines(kept + [d]);
    FilterAll(kept, Unmarked(prefix));
    FilterAll(kept, Marked(prefix));
    FilterSnoc(kept, d, Unmarked(prefix));
    FilterSnoc(kept, d, Marked(prefix));
    ErrorsExactly(kept + [d], prefix);
  }

  /** A successful merge keeps every unmarked line in its order and leaves exactly
      one marked line, well formed and holding the key. */
  lemma MergeKeepsOthers(file: string, prefix: string, key: string, date: string, utf8: string -> bool)
    requires WellFormedKey(key) && WellFormedPrefix(prefix) && Merged(file, prefix, key, date, utf8).Ok?
    ensures
      var lines := Lines(Merged(file, prefix, key, date, utf8).value.file);
      var marked := Filter(lines, Marked(prefix));
      Filter(lines, Unmarked(prefix)) == Filter(Lines(file), Unmarked(prefix))
      && |marked| == 1 && Holds(marked[0], key) && LineError(marked[0], prefix) == None
  {
    hide LineError, Lines, FirstError, Contains, WellFormedKey, Desired;
    ErrorsExactly(Lines(file), prefix);
    ReplacedLines(file, prefix, key, date);
    DesiredLine(key, prefix, date);
  }

  lemma {:induction false} LinesUtf8(s: string, utf8: string -> bool)
    requires Lawful(utf8) && utf8(s)
    ensures forall l :: l in Lines(s) ==> utf8(l)
  {
    if s != [] {
      var n := Until(s, '\n');
      if n < |s| {
        assert s == s[..n] + "\n" + s[n + 1..];
        LinesUtf8(s[n + 1..], utf8);
      }
    }
  }

  lemma {:induction false} UnlinesUtf8(lines: seq<string>, utf8: string -> bool)
    requires Lawful(utf8) && forall l :: l in lines ==> utf8(l)
    ensures utf8(Unlines(lines))
  {
    if lines != [] {
      UnlinesUtf8(lines[1..], utf8);
      assert utf8("\n");
      assert utf8(lines[0] + "\n");
    }
  }

  lemma DesiredUtf8(key: string, prefix: string, date: string, utf8: string -> bool)
    requires Lawful(utf8) && utf8(key) && utf8(prefix) && ValidDate(date)
    ensures utf8(Desired(key, prefix, date))
  {
    assert forall c :: c in date ==> c < 128 as char;
    assert utf8(date) && utf8(" ");
    assert utf8(key + " ");
    assert utf8(key + " " + prefix);
  }

  /** A well-formed marked line has three fields: an `ssh-` algorithm, the key, and the
      prefix with a date. */
  predicate WellFormedLine(line: string, prefix: string) {
    |Fields(line)| == 3 && "ssh-" <= Fields(line)[0] && |Fields(line)[2]| == |prefix| + 10 && prefix <= Fields(line)[2]
    && IsDate(Fields(line)[2][|prefix|..])
  }

  /** The first two fields are the key. */
  predicate KeyIs(line: string, key: string) {
    |Fields(line)| >= 2 && Fields(line)[0] + " " + Fields(line)[1] == key
  }

  /** YYYY-MM-DD, in digits. */
  predicate IsDate(s: string) {
    |s| == 10 && s[4] == '-' && s[7] == '-'
    && forall i :: i in {0, 1, 2, 3, 5, 6, 8, 9} ==> '0' <= s[i] <= '9'
  }

  lemma LineExactly(line: string, prefix: string)
    ensures LineError(line, prefix) == None <==> WellFormedLine(line, prefix)
    ensures forall s :: ValidDate(s) <==> IsDate(s)
  {
    hide Fields;
    forall s: string ensures ValidDate(s) <==> IsDate(s) {
    }
  }

  /** When a merge succeeds, and what it returns: the file itself if its one marked
      line holds the key, otherwise the unmarked lines followed by one line of the
      key and the prefix with the given date, each ended by a new line. */
  lemma MergeExactly(file: string, prefix: string, key: string, date: string, utf8: string -> bool)
    ensures
      var lines, r := Lines(file), Merged(file, prefix, key, date, utf8);
      var marked := Filter(lines, Marked(prefix));
      (r.Ok? <==>
         |file| <= 1048576 && '\0' !in file && '\r' !in file && IsDate(date) && utf8(file)
         && (forall l :: l in lines && Contains(l, prefix) ==> WellFormedLine(l, prefix)) && |marked| <= 1)
      && (r.Ok? ==>
            r.value == if |marked| == 1 && KeyIs(marked[0], key) then Unchanged(file)
                       else Replaced(Unlines(Filter(lines, Unmarked(prefix)) + [key + " " + prefix + date])))
  {
    hide Lines, Unlines, Contains, Fields, LineError, WellFormedLine, ValidDate, IsDate, FirstError, Holds, KeyIs;
    var lines := Lines(file);
    var marked := Filter(lines, Marked(prefix));
    ErrorsExactly(lines, prefix);
    LineExactly("", prefix);
    forall l ensures LineError(l, prefix) == None <==> WellFormedLine(l, prefix) { LineExactly(l, prefix); }
    if |marked| == 1 && Contains(marked[0], prefix) && WellFormedLine(marked[0], prefix) {
      HoldsExactly(marked[0], prefix, key);
    }
    assert |marked| == 1 ==> marked[0] in marked;
  }

  lemma HoldsExactly(line: string, prefix: string, key: string)
    requires WellFormedLine(line, prefix)
    ensures Holds(line, key) <==> KeyIs(line, key)
  {
    hide Fields;
    var f := Fields(line);
    assert f[..2] == [f[0], f[1]];
    JoinTwo(f[0], f[1]);
  }

  /** The output of a merge is itself readable, size apart. */
  lemma OutputReadable(file: string, prefix: string, key: string, date: string, utf8: string -> bool)
    requires WellFormedKey(key) && WellFormedPrefix(prefix) && Lawful(utf8) && utf8(key) && utf8(prefix)
    requires Merged(file, prefix, key, date, utf8).Ok?
    ensures
      var out := Merged(file, prefix, key, date, utf8).value.file;
      utf8(out) && '\0' !in out && '\r' !in out
  {
    hide LineError, Lines, Unlines, FirstError, Contains, WellFormedKey, Desired, Lawful;
    if Merged(file, prefix, key, date, utf8).value.Replaced? {
      var lines := Filter(Lines(file), Unmarked(prefix)) + [Desired(key, prefix, date)];
      DesiredLine(key, prefix, date);
      DesiredUtf8(key, prefix, date, utf8);
      LinesUtf8(file, utf8);
      UnlinesUtf8(lines, utf8);
      LinesAreLines(file);
      UnlinesChars(lines);
    }
  }

  lemma MergeIntoReplaced(
    file: string, prefix: string, a: string, dateA: string, b: string, dateB: string, utf8: string -> bool)
    requires WellFormedKey(a) && WellFormedPrefix(prefix)
    requires Lawful(utf8) && utf8(a) && utf8(prefix) && ValidDate(dateB)
    requires Merged(file, prefix, a, dateA, utf8).Ok? && Merged(file, prefix, a, dateA, utf8).value.Replaced?
    requires |Merged(file, prefix, a, dateA, utf8).value.file| <= MAX_FILE_BYTES
    ensures
      var out := Merged(file, prefix, a, dateA, utf8).value.file;
      Merged(out, prefix, b, dateB, utf8)
      == Ok(if a == b then Unchanged(out)
            else Replaced(Unlines(Filter(Lines(file), Unmarked(prefix)) + [Desired(b, prefix, dateB)])))
  {
    hide LineError, Lines, Unlines, FirstError, Contains, WellFormedKey, Desired, Lawful, Holds;
    OutputReadable(file, prefix, a, dateA, utf8);
    ReplacedLines(file, prefix, a, dateA);
    DesiredLine(a, prefix, dateA);
  }

  /** Merging the same key again returns the file byte for byte, on any later date,
      exactly while the file stays within the limit. */
  lemma MergeAgain(file: string, prefix: string, key: string, date: string, later: string, utf8: string -> bool)
    requires WellFormedKey(key) && WellFormedPrefix(prefix) && Lawful(utf8) && utf8(key) && utf8(prefix)
    requires Merged(file, prefix, key, date, utf8).Ok? && ValidDate(later)
    ensures
      var out := Merged(file, prefix, key, date, utf8).value.file;
      Merged(out, prefix, key, later, utf8) == Ok(Unchanged(out)) <==> |out| <= MAX_FILE_BYTES
  {
    hide LineError, Lines, Unlines, FirstError, Contains, WellFormedKey, Desired, Lawful, Holds;
    var m := Merged(file, prefix, key, date, utf8).value;
    if m.Replaced? && |m.file| <= MAX_FILE_BYTES {
      MergeIntoReplaced(file, prefix, key, date, key, later, utf8);
    }
  }

  /** The file already holds `key` in its marked line. */
  predicate AlreadyHolds(file: string, prefix: string, key: string) {
    var marked := Filter(Lines(file), Marked(prefix));
    |marked| == 1 && Holds(marked[0], key)
  }

  /** A detour over another key leaves no trace: merging A and then B equals merging
      B alone exactly when the file did not hold B to begin with. */
  lemma LastMergeWins(
    file: string, prefix: string, a: string, dateA: string, b: string, dateB: string, utf8: string -> bool)
    requires a != b && WellFormedKey(a) && WellFormedPrefix(prefix) && Lawful(utf8) && utf8(a) && utf8(prefix)
    requires Merged(file, prefix, a, dateA, utf8).Ok? && ValidDate(dateB)
    requires |Merged(file, prefix, a, dateA, utf8).value.file| <= MAX_FILE_BYTES
    ensures
      Merged(Merged(file, prefix, a, dateA, utf8).value.file, prefix, b, dateB, utf8)
      == Merged(file, prefix, b, dateB, utf8)
      <==> !AlreadyHolds(file, prefix, b)
  {
    hide LineError, Lines, Unlines, FirstError, Contains, WellFormedKey, Desired, Lawful;
    if Merged(file, prefix, a, dateA, utf8).value.Replaced? {
      MergeIntoReplaced(file, prefix, a, dateA, b, dateB, utf8);
    }
  }

  // ---- A file that outgrows the limit ---------------------------------------------

  const KEY := "ssh-a b"
  const PREFIX := "nix-secrets:"
  const DATE := "2026-01-01"

  /** One comment line of exactly the largest readable size. */
  function FullFile(): (file: string)
    ensures |file| == MAX_FILE_BYTES && forall c :: c in file ==> c == '#'
  {
    seq(MAX_FILE_BYTES, i => '#')
  }

  lemma {:induction false} AbsentCharacter(s: string, p: string)
    requires p != [] && p[0] !in s
    ensures !Contains(s, p)
  {
    if s != [] { AbsentCharacter(s[1..], p); }
  }

  lemma FullFileLines()
    ensures Lines(FullFile()) == [FullFile()] && !Contains(FullFile(), PREFIX)
  {
    var file := FullFile();
    var n := Until(file, '\n');
    forall i | 0 <= i < |file| ensures file[i] != '\n' { assert file[i] in file; }
    AbsentCharacter(file, PREFIX);
  }

  lemma SampleFields()
    ensures Fields(KEY) == ["ssh-a", "b"]
  {
    hide SolidPrefix, Fields;
    assert KEY == "ssh-a" + (" " + "b");
    SolidThen("ssh-a", " " + "b");
    SpaceThen("b");
    SolidThen("b", []);
    assert "b" + [] == "b" && Fields([]) == [] by { NoFields(); }
  }

  lemma NoFields()
    ensures Fields([]) == []
  {
  }

  lemma SampleKey()
    ensures WellFormedKey(KEY) && WellFormedPrefix(PREFIX) && ValidDate(DATE)
  {
    hide Fields;
    SampleFields();
    assert Fields(KEY)[0] == "ssh-a" && Fields(KEY)[1] == "b" && "ssh-" <= "ssh-a";
  }

  /** A readable file that a merge turns into one no further merge can read. */
  lemma MergeOutgrowsLimit(utf8: string -> bool)
    requires Lawful(utf8)
    ensures Readable(FullFile()) && WellFormedKey(KEY) && WellFormedPrefix(PREFIX) && ValidDate(DATE)
    ensures
      var once := Merged(FullFile(), PREFIX, KEY, DATE, utf8);
      once.Ok? && once.value.Replaced? && |once.value.file| > MAX_FILE_BYTES
      && Merged(once.value.file, PREFIX, KEY, DATE, utf8) == Err(Forbidden)
  {
    hide Lines, Contains, Desired, WellFormedKey, FullFile;
    assert forall c :: c in FullFile() ==> c < 128 as char;
    var file, d := FullFile(), Desired(KEY, PREFIX, DATE);
    SampleKey();
    FullFileLines();
    ErrorsExactly([file], PREFIX);
    FilterAll([file], Marked(PREFIX));
    FilterAll([file], Unmarked(PREFIX));
    assert [file] + [d] == [file, d] && [file, d][1..] == [d];
    assert Unlines([file, d]) == file + "\n" + Unlines([d]);
  }
}
