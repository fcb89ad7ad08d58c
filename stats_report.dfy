/**
 * The statistics-report converter of util/extract_stats.py: `convert_to_json`
 * turns the lines of a gem5 `stats.txt` report into a nested dictionary, and
 * `filter_stats` prunes that dictionary to the keys of an interest list.
 *
 * Python objects are modelled as they are: a leaf record is itself a
 * dictionary `{"val": …, "description": …}`, so the filter descends into
 * leaves and a dotted key may descend into an earlier leaf, as in the script.
 */
module StatsReport {
  import opened Wrappers

  /** The Python objects that occur in the parsed report. */
  datatype Value =
    | Str(s: string)
    | List(items: seq<string>)
    | Dict(m: map<string, Value>)

  /** A dictionary of statistics (one level of the nested result). */
  type Tree = map<string, Value>

  /** The two exceptions the parse can raise. */
  datatype ParseError =
    | NotEnoughValues   // ValueError: `key, value = line.split(maxsplit=1)` on a one-token line
    | NotSubscriptable  // TypeError: a key part walks into a `str` or `list` value

  /** The end-of-report marker line. */
  const Sentinel: string := Dashes + " End Simulation Statistics " + Dashes
  const Dashes: string := "----------"

  // ---------------------------------------------------------------------
  // Character classes and scanning helpers
  // ---------------------------------------------------------------------

  /** Python's `str.isspace`, which drives `split()` and `strip()`. */
  predicate IsSpace(c: char)
  {
    '\t' <= c <= '\r' || '\U{1C}' <= c <= '\U{1F}' || c == ' ' || c == '\U{85}' || c == '\U{A0}'
    || c == '\U{1680}' || '\U{2000}' <= c <= '\U{200A}' || c == '\U{2028}' || c == '\U{2029}'
    || c == '\U{202F}' || c == '\U{205F}' || c == '\U{3000}'
  }

  /** Python's `\d` in a `str` pattern: a Unicode decimal digit (general
      category Nd) of the Unicode 15.0 character database. The digits come
      in runs of ten consecutive code points, one run per script. */
  predicate IsDecimalDigit(c: char)
    ensures '0' <= c <= '9' ==> IsDecimalDigit(c)
    ensures c < '\U{80}' && IsDecimalDigit(c) ==> '0' <= c <= '9'
  {
    '0' <= c <= '9' || '\U{660}' <= c <= '\U{669}' || '\U{6F0}' <= c <= '\U{6F9}'
    || '\U{7C0}' <= c <= '\U{7C9}' || '\U{966}' <= c <= '\U{96F}'
    || '\U{9E6}' <= c <= '\U{9EF}' || '\U{A66}' <= c <= '\U{A6F}'
    || '\U{AE6}' <= c <= '\U{AEF}' || '\U{B66}' <= c <= '\U{B6F}'
    || '\U{BE6}' <= c <= '\U{BEF}' || '\U{C66}' <= c <= '\U{C6F}'
    || '\U{CE6}' <= c <= '\U{CEF}' || '\U{D66}' <= c <= '\U{D6F}'
    || '\U{DE6}' <= c <= '\U{DEF}' || '\U{E50}' <= c <= '\U{E59}'
    || '\U{ED0}' <= c <= '\U{ED9}' || '\U{F20}' <= c <= '\U{F29}'
    || '\U{1040}' <= c <= '\U{1049}' || '\U{1090}' <= c <= '\U{1099}'
    || '\U{17E0}' <= c <= '\U{17E9}' || '\U{1810}' <= c <= '\U{1819}'
    || '\U{1946}' <= c <= '\U{194F}' || '\U{19D0}' <= c <= '\U{19D9}'
    || '\U{1A80}' <= c <= '\U{1A89}' || '\U{1A90}' <= c <= '\U{1A99}'
    || '\U{1B50}' <= c <= '\U{1B59}' || '\U{1BB0}' <= c <= '\U{1BB9}'
    || '\U{1C40}' <= c <= '\U{1C49}' || '\U{1C50}' <= c <= '\U{1C59}'
    || '\U{A620}' <= c <= '\U{A629}' || '\U{A8D0}' <= c <= '\U{A8D9}'
    || '\U{A900}' <= c <= '\U{A909}' || '\U{A9D0}' <= c <= '\U{A9D9}'
    || '\U{A9F0}' <= c <= '\U{A9F9}' || '\U{AA50}' <= c <= '\U{AA59}'
    || '\U{ABF0}' <= c <= '\U{ABF9}' || '\U{FF10}' <= c <= '\U{FF19}'
    || '\U{104A0}' <= c <= '\U{104A9}' || '\U{10D30}' <= c <= '\U{10D39}'
    || '\U{11066}' <= c <= '\U{1106F}' || '\U{110F0}' <= c <= '\U{110F9}'
    || '\U{11136}' <= c <= '\U{1113F}' || '\U{111D0}' <= c <= '\U{111D9}'
    || '\U{112F0}' <= c <= '\U{112F9}' || '\U{11450}' <= c <= '\U{11459}'
    || '\U{114D0}' <= c <= '\U{114D9}' || '\U{11650}' <= c <= '\U{11659}'
    || '\U{116C0}' <= c <= '\U{116C9}' || '\U{11730}' <= c <= '\U{11739}'
    || '\U{118E0}' <= c <= '\U{118E9}' || '\U{11950}' <= c <= '\U{11959}'
    || '\U{11C50}' <= c <= '\U{11C59}' || '\U{11D50}' <= c <= '\U{11D59}'
    || '\U{11DA0}' <= c <= '\U{11DA9}' || '\U{11F50}' <= c <= '\U{11F59}'
    || '\U{16A60}' <= c <= '\U{16A69}' || '\U{16AC0}' <= c <= '\U{16AC9}'
    || '\U{16B50}' <= c <= '\U{16B59}' || '\U{1D7CE}' <= c <= '\U{1D7FF}'
    || '\U{1E140}' <= c <= '\U{1E149}' || '\U{1E2F0}' <= c <= '\U{1E2F9}'
    || '\U{1E4F0}' <= c <= '\U{1E4F9}' || '\U{1E950}' <= c <= '\U{1E959}'
    || '\U{1FBF0}' <= c <= '\U{1FBF9}'
  }

  /** The characters of the value-token pattern `[\d\.\-e]`. */
  predicate IsNumChar(c: char)
    ensures IsNumChar(c) ==> !IsSpace(c) && c != '#'
  {
    IsDecimalDigit(c) || c == '.' || c == '-' || c == 'e'
  }

  /** `not s.strip()`: the line consists of whitespace only. */
  predicate IsBlank(s: string)
    ensures IsBlank(s) <==> LeadingSpaces(s) == |s|
  {
    forall k :: 0 <= k < |s| ==> IsSpace(s[k])
  }

  /** Length of the whitespace run that starts `s`. */
  function LeadingSpaces(s: string): (n: nat)
    ensures n <= |s|
    ensures forall k :: 0 <= k < n ==> IsSpace(s[k])
    ensures n < |s| ==> !IsSpace(s[n])
  {
    if s == [] || !IsSpace(s[0]) then 0 else 1 + LeadingSpaces(s[1..])
  }

  /** Length of the whitespace run that ends `s`. */
  function TrailingSpaces(s: string): (n: nat)
    ensures n <= |s|
    ensures forall k :: |s| - n <= k < |s| ==> IsSpace(s[k])
    ensures n < |s| ==> !IsSpace(s[|s| - 1 - n])
  {
    if s == [] || !IsSpace(s[|s| - 1]) then 0 else 1 + TrailingSpaces(s[..|s| - 1])
  }

  /** Length of the non-whitespace run that starts `s`. */
  function WordLength(s: string): (n: nat)
    ensures n <= |s|
    ensures forall k :: 0 <= k < n ==> !IsSpace(s[k])
    ensures n < |s| ==> IsSpace(s[n])
  {
    if s == [] || IsSpace(s[0]) then 0 else 1 + WordLength(s[1..])
  }

  /** Length of the run of value-token characters that starts `s`. */
  function NumRunLength(s: string): (n: nat)
    ensures n <= |s|
    ensures forall k :: 0 <= k < n ==> IsNumChar(s[k])
    ensures n < |s| ==> !IsNumChar(s[n])
  {
    if s == [] || !IsNumChar(s[0]) then 0 else 1 + NumRunLength(s[1..])
  }

  /** Index of the first `c` in `s`, or `|s|` when there is none. */
  function IndexOf(s: string, c: char): (i: nat)
    ensures i <= |s|
    ensures forall k :: 0 <= k < i ==> s[k] != c
    ensures i < |s| ==> s[i] == c
  {
    if s == [] then 0 else if s[0] == c then 0 else 1 + IndexOf(s[1..], c)
  }

  /** `t` occurs in `s` at position `i`. */
  predicate OccursAt(s: string, t: string, i: int)
  {
    0 <= i && i + |t| <= |s| && s[i..i + |t|] == t
  }

  /** Python's `t in s` for strings. */
  predicate Contains(s: string, t: string)
    ensures Contains(s, t) <==> exists i :: OccursAt(s, t, i)
    decreases |s|
  {
    if |t| > |s| then false
    else if s[..|t|] == t then assert OccursAt(s, t, 0); true
    else OccursShift(s, t); Contains(s[1..], t)
  }

  /** The occurrences in `s[1..]` are those in `s` from position 1 on. */
  lemma OccursShift(s: string, t: string)
    requires |s| > 0
    ensures forall i :: OccursAt(s[1..], t, i) ==> OccursAt(s, t, i + 1)
    ensures forall i :: 1 <= i && OccursAt(s, t, i) ==> OccursAt(s[1..], t, i - 1)
  {
    forall i | OccursAt(s[1..], t, i) ensures OccursAt(s, t, i + 1) {
      assert s[1..][i..i + |t|] == s[i + 1..i + 1 + |t|];
    }
    forall i | 1 <= i && OccursAt(s, t, i) ensures OccursAt(s[1..], t, i - 1) {
      assert s[1..][i - 1..i - 1 + |t|] == s[i..i + |t|];
    }
  }

  /** Python's `s.strip()`: the text between the leading and the trailing
      whitespace runs. */
  function Strip(s: string): (r: string)
    ensures LeadingSpaces(s) + |r| <= |s|
    ensures r == s[LeadingSpaces(s)..LeadingSpaces(s) + |r|]
    ensures IsBlank(s[LeadingSpaces(s) + |r|..])
    ensures r != [] ==> !IsSpace(r[0]) && !IsSpace(r[|r| - 1])
  {
    var a := LeadingSpaces(s);
    var t := s[a..];
    var r := t[..|t| - TrailingSpaces(t)];
    assert s[a + |r|..] == t[|r|..];
    r
  }

  /** Python's `s.split()`: the maximal whitespace-free words of `s`, in order. */
  function Words(s: string): (ws: seq<string>)
    ensures forall k :: 0 <= k < |ws| ==> ws[k] != []
    decreases |s|
  {
    var a := LeadingSpaces(s);
    if a == |s| then []
    else
      var t := s[a..];
      var w := WordLength(t);
      [t[..w]] + Words(t[w..])
  }

  /** Python's `line.split(maxsplit=1)` when it yields two parts: the first
      word and the remainder after the whitespace that follows it (trailing
      whitespace is kept). `None` when the line has fewer than two words. */
  function SplitKey(line: string): (r: Option<(string, string)>)
    ensures r.Some? ==>
      var (key, rest) := r.value;
      key != [] && (forall k :: 0 <= k < |key| ==> !IsSpace(key[k])) &&
      rest != [] && !IsSpace(rest[0]) && LeadingSpaces(line) + |key| < |line| - |rest| &&
      key == line[LeadingSpaces(line)..LeadingSpaces(line) + |key|] && rest == line[|line| - |rest|..]
  {
    var a := LeadingSpaces(line);
    var t := line[a..];
    var w := WordLength(t);
    var rest := t[w..];
    var b := LeadingSpaces(rest);
    if b == |rest| then None
    else
      SplitKeyPieces(line, a, w, b);
      assert t[0] == line[a] && w > 0;
      assert rest[0] == t[w] && b > 0;
      Some((t[..w], rest[b..]))
  }

  /** The slices `SplitKey` takes, as slices of the whole line. */
  lemma SplitKeyPieces(line: string, a: nat, w: nat, b: nat)
    requires a + w + b <= |line|
    ensures line[a..][..w] == line[a..a + w]
    ensures line[a..][w..][b..] == line[a + w + b..] == line[|line| - (|line| - (a + w + b))..]
  {
  }

  /** The text before and after the first `#` of the value text. */
  datatype Fields = Fields(value: string, description: string)

  /** Python's `value.split('#', 1)` when `'#' in value`; otherwise the
      description is `""`. */
  function SplitHash(rest: string): (f: Fields)
    ensures '#' !in f.value
    ensures '#' !in rest ==> f == Fields(rest, "")
    ensures '#' in rest ==> rest == f.value + "#" + f.description
  {
    var h := IndexOf(rest, '#');
    if h == |rest| then Fields(rest, "")
    else
      assert rest == rest[..h] + "#" + rest[h + 1..];
      Fields(rest[..h], rest[h + 1..])
  }

  /** Python's `re.findall(r'[\d\.\-e]+', s)`: the maximal runs of
      value-token characters, in order. */
  function NumericTokens(s: string): (ts: seq<string>)
    ensures forall k :: 0 <= k < |ts| ==> ts[k] != [] && forall j :: 0 <= j < |ts[k]| ==> IsNumChar(ts[k][j])
    decreases |s|
  {
    if s == [] then []
    else if !IsNumChar(s[0]) then NumericTokens(s[1..])
    else
      var n := NumRunLength(s);
      [s[..n]] + NumericTokens(s[n..])
  }

  /** Python's `s.split(sep)`. */
  function SplitOn(s: string, sep: char): (parts: seq<string>)
    ensures |parts| >= 1
    ensures forall k :: 0 <= k < |parts| ==> sep !in parts[k]
    decreases |s|
  {
    var i := IndexOf(s, sep);
    if i == |s| then [s] else [s[..i]] + SplitOn(s[i + 1..], sep)
  }

  /** Python's `sep.join(parts)`: the inverse of `SplitOn`. */
  function Join(parts: seq<string>, sep: char): string
    requires |parts| >= 1
  {
    if |parts| == 1 then parts[0] else parts[0] + [sep] + Join(parts[1..], sep)
  }

  // ---------------------------------------------------------------------
  // Building the nested dictionary
  // ---------------------------------------------------------------------

  /** `value_num`: the single token when there is exactly one, else the list. */
  function ValueOf(tokens: seq<string>): (v: Value)
    ensures v.Str? <==> |tokens| == 1
    ensures !v.Dict? && TokensOf(v) == tokens
  {
    if |tokens| == 1 then Str(tokens[0]) else List(tokens)
  }

  /** The tokens a `value_num` holds. */
  function TokensOf(v: Value): seq<string>
  {
    match v
    case Str(s) => [s]
    case List(items) => items
    case Dict(_) => []
  }

  /** The leaf record `{'val': value_num, 'description': description.strip()}`. */
  function Leaf(valueNum: Value, description: string): (r: Value)
    ensures r.Dict? && r.m.Keys == {"val", "description"} && r.m["val"] == valueNum
    ensures r.m["description"].Str? && r.m["description"].s == Strip(description)
    ensures var t := r.m["description"].s; t == [] || (!IsSpace(t[0]) && !IsSpace(t[|t| - 1]))
  {
    Dict(map["val" := valueNum, "description" := Str(Strip(description))])
  }

  /** The descent of `current_level` through `parts[..|parts| - 1]`, creating
      missing dictionaries, followed by `current_level[parts[|parts| - 1]] = leaf`.
      Walking into a `str` or `list` raises TypeError. */
  function Insert(d: Tree, parts: seq<string>, leaf: Value): (r: Result<Tree, ParseError>)
    requires |parts| >= 1
    ensures r.Err? ==> r.error == NotSubscriptable
    ensures r.Ok? ==> r.value.Keys == d.Keys + {parts[0]}
    ensures r.Ok? ==> forall k :: k in d && k != parts[0] ==> r.value[k] == d[k]
    decreases |parts|
  {
    var p := parts[0];
    if |parts| == 1 then Ok(d[p := leaf])
    else
      var sub := if p in d then d[p] else Dict(map[]);
      if !sub.Dict? then Err(NotSubscriptable)
      else
        match Insert(sub.m, parts[1..], leaf)
        case Err(e) => Err(e)
        case Ok(m) => Ok(d[p := Dict(m)])
  }

  /** The value reached by following `path` through nested dictionaries. */
  function Lookup(d: Tree, path: seq<string>): (r: Option<Value>)
    requires |path| >= 1
    ensures r.Some? ==> Walkable(d, path[..|path| - 1])
    decreases |path|
  {
    assert |path| > 1 ==> path[..|path| - 1][1..] == path[1..][..|path| - 2];
    if path[0] !in d then None
    else if |path| == 1 then Some(d[path[0]])
    else match d[path[0]]
      case Dict(m) => Lookup(m, path[1..])
      case _ => None
  }

  /** Every value met along `path` that already exists is a dictionary. */
  ghost predicate Walkable(d: Tree, path: seq<string>)
    decreases |path|
  {
    path == [] || path[0] !in d || (d[path[0]].Dict? && Walkable(d[path[0]].m, path[1..]))
  }

  /** Lines 20-45 for one data line (neither blank nor the end marker). */
  function ParseLine(d: Tree, line: string): (r: Result<Tree, ParseError>)
    ensures SplitKey(line).None? <==> r == Err(NotEnoughValues)
    ensures r.Ok? ==> r.value.Keys == d.Keys + {SplitOn(SplitKey(line).value.0, '.')[0]}
  {
    match SplitKey(line)
    case None => Err(NotEnoughValues)
    case Some((key, rest)) =>
      var f := SplitHash(rest);
      Insert(d, SplitOn(key, '.'), Leaf(ValueOf(NumericTokens(f.value)), f.description))
  }

  /** The loop of lines 12-45 from dictionary `d` over `lines`. */
  function ParseFrom(d: Tree, lines: seq<string>): (r: Result<Tree, ParseError>)
    ensures r.Ok? ==> d.Keys <= r.value.Keys
    decreases |lines|
  {
    if lines == [] || Contains(lines[0], Sentinel) then Ok(d)
    else if IsBlank(lines[0]) then ParseFrom(d, lines[1..])
    else match ParseLine(d, lines[0])
      case Err(e) => Err(e)
      case Ok(d') => ParseFrom(d', lines[1..])
  }

  /** What `convert_to_json` returns for the lines of a report. */
  function Parse(lines: seq<string>): (r: Result<Tree, ParseError>)
    ensures |lines| <= 2 ==> r == Ok(map[])
  {
    ParseFrom(map[], if |lines| <= 2 then [] else lines[2..])
  }

  /** `convert_to_json` without the file reading: the loop over the lines
      after the two header lines, updating `data` line by line. */
  method ConvertToJson(lines: seq<string>) returns (r: Result<Tree, ParseError>)
    ensures r == Parse(lines)
  {
    var body := if |lines| <= 2 then [] else lines[2..];
    var data: Tree := map[];
    var i := 0;
    while i < |body|
      invariant 0 <= i <= |body|
      invariant ParseFrom(data, body[i..]) == Parse(lines)
    {
      var line := body[i];
      assert body[i..][0] == line && body[i..][1..] == body[i + 1..];
      if Contains(line, Sentinel) {
        break;
      }
      if !IsBlank(line) {
        var split := SplitKey(line);
        if split.None? {
          return Err(NotEnoughValues);
        }
        var (key, rest) := split.value;
        var fields := SplitHash(rest);
        var valueNum := ValueOf(NumericTokens(fields.value));
        var inserted := Insert(data, SplitOn(key, '.'), Leaf(valueNum, fields.description));
        if inserted.Err? {
          return Err(inserted.error);
        }
        data := inserted.value;
      }
      i := i + 1;
    }
    return Ok(data);
  }

  // ---------------------------------------------------------------------
  // filter_stats
  // ---------------------------------------------------------------------

  /** `filter_stats(stats, interest_list)`. */
  function Filter(stats: Tree, interest: seq<string>): (r: Tree)
    ensures r.Keys <= stats.Keys
    decreases Dict(stats)
  {
    map k | k in stats && (k in interest || (stats[k].Dict? && Filter(stats[k].m, interest) != map[])) ::
      if k in interest then stats[k] else Dict(Filter(stats[k].m, interest))
  }

  /** `a` is `b` with some keys removed at some levels, nothing added or changed. */
  ghost predicate Pruned(a: Tree, b: Tree)
    decreases Dict(a)
  {
    a.Keys <= b.Keys &&
    forall k :: k in a ==> a[k] == b[k] || (a[k].Dict? && b[k].Dict? && Pruned(a[k].m, b[k].m))
  }

  // ---------------------------------------------------------------------
  // Lemmas about the scanning helpers
  // ---------------------------------------------------------------------

  lemma SentinelStartsWithDash()
    ensures |Sentinel| > 0 && Sentinel[0] == '-'
  {
  }

  /** A line that holds the end marker is not blank. */
  lemma {:induction false} SentinelLineNotBlank(s: string)
    requires Contains(s, Sentinel)
    ensures !IsBlank(s)
    decreases |s|
  {
    SentinelStartsWithDash();
    if s[..|Sentinel|] == Sentinel {
      assert s[0] == Sentinel[0];
    } else {
      SentinelLineNotBlank(s[1..]);
      assert !IsBlank(s[1..]);
      var k :| 0 <= k < |s[1..]| && !IsSpace(s[1..][k]);
      assert s[k + 1] == s[1..][k];
    }
  }

  /** The leading-space count is the position of the first non-space character. */
  lemma LeadingSpacesUnique(s: string, m: nat)
    requires m <= |s| && (forall k :: 0 <= k < m ==> IsSpace(s[k])) && (m < |s| ==> !IsSpace(s[m]))
    ensures LeadingSpaces(s) == m
  {
  }

  /** A blank line is never taken for the end marker. */
  lemma BlankLineNotSentinel(b: string)
    requires IsBlank(b)
    ensures !Contains(b, Sentinel)
  {
    if Contains(b, Sentinel) {
      SentinelLineNotBlank(b);
    }
  }

  /** Leading whitespace does not change the words of a string. */
  lemma WordsSkipSpaces(s: string, n: nat)
    requires n <= |s| && IsBlank(s[..n])
    ensures Words(s[n..]) == Words(s)
  {
    var a := LeadingSpaces(s);
    assert forall k :: 0 <= k < n ==> s[..n][k] == s[k];
    assert a >= n;
    var t := s[n..];
    LeadingSpacesUnique(t, a - n);
    assert t[a - n..] == s[a..];
  }

  /** `SplitKey` agrees with Python's full `split()`: it fails exactly when
      the line has fewer than two words, and otherwise returns the first word
      and a remainder holding the other words. */
  lemma SplitKeyWords(line: string)
    ensures SplitKey(line).None? <==> |Words(line)| <= 1
    ensures SplitKey(line).Some? ==>
      var (key, rest) := SplitKey(line).value;
      Words(line) == [key] + Words(rest) && rest != [] && !IsSpace(rest[0]) && !IsSpace(key[0])
  {
    var a := LeadingSpaces(line);
    var t := line[a..];
    var w := WordLength(t);
    var rest := t[w..];
    var b := LeadingSpaces(rest);
    WordsSkipSpaces(rest, b);
    if a == |line| {
      assert Words(line) == [];
    } else {
      assert Words(line) == [t[..w]] + Words(rest);
      if b == |rest| {
        assert Words(rest) == [];
      } else {
        assert Words(rest) != [];
        assert !IsSpace(rest[b..][0]);
      }
    }
  }

  /** A value-token run of a longer string stops where the run of its prefix
      stops, when the prefix continues with a non-token character. */
  lemma NumRunOfPrefix(a: string, c: char, b: string)
    requires !IsNumChar(c)
    ensures NumRunLength(a + [c] + b) == NumRunLength(a)
  {
    var s := a + [c] + b;
    var n := NumRunLength(a);
    if n < |a| { assert s[n] == a[n]; } else { assert s[n] == c; }
  }

  /** A character outside the token class separates tokens:
      `findall(a + c + b) == findall(a) + findall(b)`. */
  lemma {:induction false} NumericTokensSplit(a: string, c: char, b: string)
    requires !IsNumChar(c)
    ensures NumericTokens(a + [c] + b) == NumericTokens(a) + NumericTokens(b)
    decreases |a|
  {
    var s := a + [c] + b;
    if a == [] {
      assert s[1..] == b;
    } else if !IsNumChar(a[0]) {
      assert s[1..] == a[1..] + [c] + b;
      NumericTokensSplit(a[1..], c, b);
    } else {
      var n := NumRunLength(a);
      NumRunOfPrefix(a, c, b);
      SlicesOfPrefix(a, c, b, n);
      NumericTokensSplit(a[n..], c, b);
    }
  }

  /** Cutting `a + [c] + b` inside `a`. */
  lemma SlicesOfPrefix(a: string, c: char, b: string, n: nat)
    requires n <= |a|
    ensures (a + [c] + b)[..n] == a[..n]
    ensures (a + [c] + b)[n..] == a[n..] + [c] + b
  {
  }

  /** A non-empty run of token characters is one token. */
  lemma NumericTokensOfRun(s: string)
    requires s != [] && forall k :: 0 <= k < |s| ==> IsNumChar(s[k])
    ensures NumericTokens(s) == [s]
  {
    assert NumRunLength(s) == |s|;
    assert s[..|s|] == s && s[|s|..] == [];
  }

  /** A string without token characters has no tokens. */
  lemma {:induction false} NumericTokensNone(s: string)
    requires forall k :: 0 <= k < |s| ==> !IsNumChar(s[k])
    ensures NumericTokens(s) == []
    decreases |s|
  {
    if s != [] {
      NumericTokensNone(s[1..]);
    }
  }

  /** Joining the parts of `s.split(sep)` gives `s` back. */
  lemma {:induction false} JoinSplitOn(s: string, sep: char)
    ensures Join(SplitOn(s, sep), sep) == s
    decreases |s|
  {
    var i := IndexOf(s, sep);
    if i < |s| {
      var rest := SplitOn(s[i + 1..], sep);
      assert SplitOn(s, sep) == [s[..i]] + rest;
      assert ([s[..i]] + rest)[1..] == rest;
      JoinSplitOn(s[i + 1..], sep);
      assert Join(SplitOn(s, sep), sep) == s[..i] + [sep] + s[i + 1..];
      assert s == s[..i] + [sep] + s[i + 1..];
    }
  }

  /** Splitting a join of separator-free parts gives the parts back. */
  lemma {:induction false} SplitOnJoin(parts: seq<string>, sep: char)
    requires |parts| >= 1
    requires forall k :: 0 <= k < |parts| ==> sep !in parts[k]
    ensures SplitOn(Join(parts, sep), sep) == parts
    decreases |parts|
  {
    var s := Join(parts, sep);
    if |parts| == 1 {
      assert IndexOf(s, sep) == |s|;
    } else {
      var p := parts[0];
      assert s == p + [sep] + Join(parts[1..], sep);
      assert IndexOf(s, sep) == |p| by {
        var i := IndexOf(s, sep);
        assert s[|p|] == sep;
      }
      assert s[..|p|] == p;
      assert s[|p| + 1..] == Join(parts[1..], sep);
      SplitOnJoin(parts[1..], sep);
    }
  }

  // ---------------------------------------------------------------------
  // Lemmas about the nested dictionary
  // ---------------------------------------------------------------------

  /** Storing a leaf fails exactly when an existing value on the way to it is
      not a dictionary; missing levels are created. */
  lemma {:induction false} InsertSucceedsIff(d: Tree, parts: seq<string>, leaf: Value)
    requires |parts| >= 1
    ensures Insert(d, parts, leaf).Ok? <==> Walkable(d, parts[..|parts| - 1])
    decreases |parts|
  {
    if |parts| > 1 {
      var p := parts[0];
      assert parts[..|parts| - 1][1..] == parts[1..][..|parts| - 2];
      if p !in d {
        InsertSucceedsIff(map[], parts[1..], leaf);
        assert Walkable(map[], parts[1..][..|parts| - 2]);
      } else if d[p].Dict? {
        InsertSucceedsIff(d[p].m, parts[1..], leaf);
      }
    }
  }

  /** After a successful insert, the leaf is found at its path. */
  lemma {:induction false} InsertThenLookup(d: Tree, parts: seq<string>, leaf: Value)
    requires |parts| >= 1 && Insert(d, parts, leaf).Ok?
    ensures Lookup(Insert(d, parts, leaf).value, parts) == Some(leaf)
    decreases |parts|
  {
    if |parts| > 1 {
      var p := parts[0];
      var sub := if p in d then d[p] else Dict(map[]);
      InsertThenLookup(sub.m, parts[1..], leaf);
    }
  }

  /** Neither of two key paths is a prefix of the other: they part at a
      position that both have. */
  predicate Diverges(a: seq<string>, b: seq<string>)
  {
    exists j :: 0 <= j < |a| && j < |b| && a[j] != b[j]
  }

  /** A successful insert changes nothing at a path that parts from the
      inserted one, at whatever depth they part. */
  lemma {:induction false} InsertLeavesOtherPaths(d: Tree, parts: seq<string>, leaf: Value, path: seq<string>)
    requires |parts| >= 1 && |path| >= 1 && Insert(d, parts, leaf).Ok?
    requires Diverges(path, parts)
    ensures Lookup(Insert(d, parts, leaf).value, path) == Lookup(d, path)
    decreases |parts|
  {
    var p := parts[0];
    if path[0] == p {
      var j :| 0 <= j < |path| && j < |parts| && path[j] != parts[j];
      assert path[1..][j - 1] == path[j] && parts[1..][j - 1] == parts[j];
      var sub := if p in d then d[p] else Dict(map[]);
      InsertLeavesOtherPaths(sub.m, parts[1..], leaf, path[1..]);
    }
  }

  /** Only the last of two updates of one key survives. */
  lemma UpdateTwice(d: Tree, k: string, a: Value, b: Value)
    ensures d[k := a][k := b] == d[k := b]
  {
  }

  /** Storing at the same path twice keeps only the second leaf. */
  lemma {:induction false} InsertOverwrites(d: Tree, parts: seq<string>, first: Value, second: Value)
    requires |parts| >= 1 && Insert(d, parts, first).Ok?
    ensures Insert(Insert(d, parts, first).value, parts, second) == Insert(d, parts, second)
    decreases |parts|
  {
    var p := parts[0];
    if |parts| == 1 {
      UpdateTwice(d, p, first, second);
    } else {
      var sub := if p in d then d[p] else Dict(map[]);
      InsertOverwrites(sub.m, parts[1..], first, second);
      var m1 := Insert(sub.m, parts[1..], first).value;
      var d1 := d[p := Dict(m1)];
      assert Insert(d, parts, first) == Ok(d1);
      var r2 := Insert(sub.m, parts[1..], second);
      if r2.Ok? {
        UpdateTwice(d, p, Dict(m1), Dict(r2.value));
      }
    }
  }

  /** A data line stores its leaf record at the path of its dotted key. */
  lemma ParseLineStoresLeaf(d: Tree, line: string)
    requires ParseLine(d, line).Ok?
    ensures SplitKey(line).Some?
    ensures
      var (key, rest) := SplitKey(line).value;
      var f := SplitHash(rest);
      Lookup(ParseLine(d, line).value, SplitOn(key, '.')) == Some(Leaf(ValueOf(NumericTokens(f.value)), f.description))
  {
    var (key, rest) := SplitKey(line).value;
    var f := SplitHash(rest);
    InsertThenLookup(d, SplitOn(key, '.'), Leaf(ValueOf(NumericTokens(f.value)), f.description));
  }

  /** A data line changes nothing at a path that parts from its key's
      path: after `a.b`, a line `a.c` leaves `a.b`'s leaf in place. */
  lemma ParseLineLeavesOtherPaths(d: Tree, line: string, path: seq<string>)
    requires ParseLine(d, line).Ok? && |path| >= 1
    ensures SplitKey(line).Some?
    ensures Diverges(path, SplitOn(SplitKey(line).value.0, '.')) ==>
      Lookup(ParseLine(d, line).value, path) == Lookup(d, path)
  {
    var (key, rest) := SplitKey(line).value;
    var f := SplitHash(rest);
    if Diverges(path, SplitOn(key, '.')) {
      InsertLeavesOtherPaths(d, SplitOn(key, '.'), Leaf(ValueOf(NumericTokens(f.value)), f.description), path);
    }
  }

  /** A later line with the same key replaces the earlier leaf. */
  lemma SameKeyLastWins(d: Tree, earlier: string, later: string)
    requires SplitKey(earlier).Some? && SplitKey(later).Some?
    requires SplitKey(earlier).value.0 == SplitKey(later).value.0
    requires ParseLine(d, earlier).Ok?
    ensures ParseLine(ParseLine(d, earlier).value, later) == ParseLine(d, later)
  {
    var (key, rest1) := SplitKey(earlier).value;
    var (_, rest2) := SplitKey(later).value;
    var f1 := SplitHash(rest1);
    var f2 := SplitHash(rest2);
    InsertOverwrites(d, SplitOn(key, '.'),
      Leaf(ValueOf(NumericTokens(f1.value)), f1.description),
      Leaf(ValueOf(NumericTokens(f2.value)), f2.description));
  }

  // ---------------------------------------------------------------------
  // Lemmas about the line loop
  // ---------------------------------------------------------------------

  /** The two header lines never contribute, whatever their content. */
  lemma HeaderIgnored(lines: seq<string>, h1: string, h2: string)
    requires |lines| >= 2
    ensures Parse([h1, h2] + lines[2..]) == Parse(lines)
  {
    assert ([h1, h2] + lines[2..])[2..] == lines[2..];
  }

  lemma {:induction false} ParseFromStopsAtSentinel(d: Tree, body: seq<string>, s: string, post: seq<string>)
    requires Contains(s, Sentinel)
    ensures ParseFrom(d, body + [s] + post) == ParseFrom(d, body)
    decreases |body|
  {
    var all := body + [s] + post;
    if body == [] {
      assert all[0] == s;
    } else {
      assert all[0] == body[0] && all[1..] == body[1..] + [s] + post;
      if Contains(body[0], Sentinel) {
      } else if IsBlank(body[0]) {
        ParseFromStopsAtSentinel(d, body[1..], s, post);
      } else if ParseLine(d, body[0]).Ok? {
        ParseFromStopsAtSentinel(ParseLine(d, body[0]).value, body[1..], s, post);
      }
    }
  }

  /** Nothing from the first end-marker line onward reaches the result. */
  lemma SentinelEndsReport(pre: seq<string>, s: string, post: seq<string>)
    requires |pre| >= 2 && Contains(s, Sentinel)
    ensures Parse(pre + [s] + post) == Parse(pre)
  {
    assert (pre + [s] + post)[2..] == pre[2..] + [s] + post;
    ParseFromStopsAtSentinel(map[], pre[2..], s, post);
    if |pre| == 2 {
      assert pre[2..] == [];
    }
  }

  lemma {:induction false} ParseFromSkipsBlank(d: Tree, body: seq<string>, b: string, post: seq<string>)
    requires IsBlank(b)
    ensures ParseFrom(d, body + [b] + post) == ParseFrom(d, body + post)
    decreases |body|
  {
    var all := body + [b] + post;
    if body == [] {
      BlankLineNotSentinel(b);
      assert all[0] == b && all[1..] == post && body + post == post;
    } else {
      assert all[0] == body[0] && all[1..] == body[1..] + [b] + post;
      assert (body + post)[0] == body[0] && (body + post)[1..] == body[1..] + post;
      if Contains(body[0], Sentinel) {
      } else if IsBlank(body[0]) {
        ParseFromSkipsBlank(d, body[1..], b, post);
      } else if ParseLine(d, body[0]).Ok? {
        ParseFromSkipsBlank(ParseLine(d, body[0]).value, body[1..], b, post);
      }
    }
  }

  /** A whitespace-only line after the header has no effect. */
  lemma BlankLineSkipped(pre: seq<string>, b: string, post: seq<string>)
    requires |pre| >= 2 && IsBlank(b)
    ensures Parse(pre + [b] + post) == Parse(pre + post)
  {
    assert (pre + [b] + post)[2..] == pre[2..] + [b] + post;
    assert (pre + post)[2..] == pre[2..] + post;
    ParseFromSkipsBlank(map[], pre[2..], b, post);
  }

  /** A data line with a single word aborts the whole parse. */
  lemma OneWordLineAborts(d: Tree, line: string, post: seq<string>)
    requires !Contains(line, Sentinel) && !IsBlank(line) && |Words(line)| == 1
    ensures ParseFrom(d, [line] + post) == Err(NotEnoughValues)
  {
    SplitKeyWords(line);
    assert ([line] + post)[1..] == post;
  }

  // ---------------------------------------------------------------------
  // Lemmas about filter_stats
  // ---------------------------------------------------------------------

  /** An empty interest list gives `{}`. */
  lemma {:induction false} FilterEmptyInterest(stats: Tree)
    ensures Filter(stats, []) == map[]
    decreases Dict(stats)
  {
    forall k | k in stats && stats[k].Dict?
      ensures Filter(stats[k].m, []) == map[]
    {
      FilterEmptyInterest(stats[k].m);
    }
    assert Filter(stats, []).Keys == {};
  }

  /** The output keys are input keys at every level, and every kept value is
      the input's value or a pruning of it. */
  lemma {:induction false} FilterPrunes(stats: Tree, interest: seq<string>)
    ensures Pruned(Filter(stats, interest), stats)
    decreases Dict(stats)
  {
    forall k | k in stats && stats[k].Dict?
      ensures Pruned(Filter(stats[k].m, interest), stats[k].m)
    {
      FilterPrunes(stats[k].m, interest);
    }
  }

  /** Filtering twice with the same list is filtering once. */
  lemma {:induction false} FilterIdempotent(stats: Tree, interest: seq<string>)
    ensures Filter(Filter(stats, interest), interest) == Filter(stats, interest)
    decreases Dict(stats)
  {
    var f := Filter(stats, interest);
    forall k | k in stats && k !in interest && stats[k].Dict?
      ensures Filter(Filter(stats[k].m, interest), interest) == Filter(stats[k].m, interest)
    {
      FilterIdempotent(stats[k].m, interest);
    }
    var g := Filter(f, interest);
    assert g.Keys == f.Keys;
    forall k | k in f ensures g[k] == f[k] {
      if k !in interest {
        assert f[k] == Dict(Filter(stats[k].m, interest));
      }
    }
  }

  /** Every key of `t`, at every depth, survives the filter: it is listed,
      or it holds a non-empty dictionary all of whose keys survive. */
  predicate Covered(t: Tree, interest: seq<string>)
    decreases Dict(t)
  {
    forall k :: k in t ==>
      k in interest || (t[k].Dict? && t[k].m != map[] && Covered(t[k].m, interest))
  }

  /** The filter loses nothing exactly when every key is covered; in
      particular a list holding the key of every non-dictionary value, in a
      tree without empty dictionaries, gives the input back. */
  lemma {:induction false} FilterKeepsAllIff(t: Tree, interest: seq<string>)
    ensures Filter(t, interest) == t <==> Covered(t, interest)
    decreases Dict(t)
  {
    forall k | k in t && t[k].Dict?
      ensures Filter(t[k].m, interest) == t[k].m <==> Covered(t[k].m, interest)
    {
      FilterKeepsAllIff(t[k].m, interest);
    }
    var f := Filter(t, interest);
    if Covered(t, interest) {
      assert f.Keys == t.Keys;
      forall k | k in t ensures f[k] == t[k] {
      }
    }
    if f == t {
      forall k | k in t
        ensures k in interest || (t[k].Dict? && t[k].m != map[] && Covered(t[k].m, interest))
      {
        assert k in f;
        if k !in interest {
          assert f[k] == Dict(Filter(t[k].m, interest));
        }
      }
    }
  }

  /** Matching is by bare key at any depth: a value whose own key is in the
      list, and none of whose enclosing keys is, survives at the same path. */
  lemma {:induction false} FilterKeepsMatchAtAnyDepth(stats: Tree, path: seq<string>, interest: seq<string>)
    requires |path| >= 1 && Lookup(stats, path).Some?
    requires path[|path| - 1] in interest
    requires forall j :: 0 <= j < |path| - 1 ==> path[j] !in interest
    ensures Lookup(Filter(stats, interest), path) == Lookup(stats, path)
    decreases |path|
  {
    if |path| > 1 {
      var p := path[0];
      var m := stats[p].m;
      assert path[1..][|path| - 2] == path[|path| - 1];
      FilterKeepsMatchAtAnyDepth(m, path[1..], interest);
      assert path[1..][0] in Filter(m, interest);
    }
  }

  // ---------------------------------------------------------------------
  // Worked examples
  // ---------------------------------------------------------------------

  /** A line of a one-letter key, a space and a one-letter value. */
  lemma SplitKeyOfShortLine(k: char, v: char)
    requires !IsSpace(k) && !IsSpace(v)
    ensures SplitKey([k, ' ', v]) == Some(([k], [v]))
  {
    var line := [k, ' ', v];
    assert LeadingSpaces(line) == 0;
    assert line[0..] == line;
    assert line[1..] == [' ', v] && line[1..][1..] == [v] && [v][1..] == [];
    assert WordLength([' ', v]) == 0;
    assert WordLength(line) == 1;
    assert LeadingSpaces([v]) == 0;
    assert LeadingSpaces([' ', v]) == 1;
    assert line[..1] == [k];
  }

  /** A one-digit value is one token, for the digits of every script. */
  lemma TokensOfDigit(v: char)
    requires IsDecimalDigit(v)
    ensures NumericTokens([v]) == [[v]]
  {
    assert [v][1..] == [];
    assert NumRunLength([v]) == 1;
    assert [v][..1] == [v];
  }

  /** A line such as "a 1" stores the leaf `{'val': "1", 'description': ""}` under "a". */
  lemma ParseShortLine(d: Tree, k: char, v: char)
    requires !IsSpace(k) && k != '.' && IsDecimalDigit(v)
    ensures ParseLine(d, [k, ' ', v]) == Ok(d[[k] := Leaf(Str([v]), "")])
  {
    assert IsNumChar(v);
    SplitKeyOfShortLine(k, v);
    TokensOfDigit(v);
    assert SplitHash([v]) == Fields([v], "");
    assert IndexOf([k], '.') == 1;
    assert SplitOn([k], '.') == [[k]];
  }

  /** A short data line is neither blank nor the end marker. */
  lemma ShortLineIsData(k: char, v: char)
    requires !IsSpace(k)
    ensures !Contains([k, ' ', v], Sentinel) && !IsBlank([k, ' ', v])
  {
    assert |Sentinel| == 47;
    assert [k, ' ', v][0] == k;
  }

  /** One short data line followed by the rest of the report. */
  lemma ParseFromShortLine(d: Tree, k: char, v: char, post: seq<string>)
    requires !IsSpace(k) && k != '.' && IsDecimalDigit(v)
    ensures ParseFrom(d, [[k, ' ', v]] + post) == ParseFrom(d[[k] := Leaf(Str([v]), "")], post)
  {
    ParseShortLine(d, k, v);
    ShortLineIsData(k, v);
    assert ([[k, ' ', v]] + post)[1..] == post;
  }

  /** Filtering on "val" keeps the value of every leaf and drops its
      description: leaf records are dictionaries too. */
  lemma ExampleFilterIntoLeaf()
    ensures Filter(map["a" := Leaf(Str("1"), "d")], ["val"]) == map["a" := Dict(map["val" := Str("1")])]
  {
    var leaf := Leaf(Str("1"), "d");
    assert "description" !in ["val"];
    assert Filter(leaf.m, ["val"]).Keys == {"val"};
    assert Filter(leaf.m, ["val"]) == map["val" := Str("1")];
    assert Filter(map["a" := leaf], ["val"]).Keys == {"a"};
  }
}
