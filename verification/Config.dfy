/** The key=value settings file: what loading reads, what saving writes, and when one undoes the other. */
module ConfigFile {
  import Wrappers

  type Settings = map<string, string>

  // ---------------------------------------------------------------- text

  /** Position of the first `c`, or the length when there is none. */
  function IndexOf(s: string, c: char): (n: nat)
    ensures n <= |s| && c !in s[..n]
    ensures n < |s| ==> s[n] == c
  {
    if s == "" || s[0] == c then 0 else
      var n := IndexOf(s[1..], c);
      assert s[..n + 1] == [s[0]] + s[1..][..n];
      n + 1
  }

  predicate Space(c: char) {
    c == ' ' || c == '\t' || c == '\r' || c == '\n'
  }

  predicate Trimmed(s: string) {
    s == "" || (!Space(s[0]) && !Space(s[|s| - 1]))
  }

  function TrimLeft(s: string): (r: string)
    ensures r == "" || !Space(r[0])
    ensures |r| <= |s| && r == s[|s| - |r|..]
  {
    if s == "" || !Space(s[0]) then s else TrimLeft(s[1..])
  }

  function TrimRight(s: string): (r: string)
    ensures r == "" || !Space(r[|r| - 1])
    ensures |r| <= |s| && r == s[..|r|]
  {
    if s == "" || !Space(s[|s| - 1]) then s else TrimRight(s[..|s| - 1])
  }

  function Trim(s: string): (r: string)
    ensures Trimmed(r)
    ensures forall c :: c in r ==> c in s
    ensures Trimmed(s) ==> r == s
  {
    TrimRight(TrimLeft(s))
  }

  // ---------------------------------------------------------------- reading and writing

  datatype Line = Ignored | Setting(key: string, value: string)

  /** The part of a line before any comment. */
  function Body(line: string): (body: string)
    ensures '#' !in body && forall c :: c in body ==> c in line
  {
    line[..IndexOf(line, '#')]
  }

  /** What one line says: the first '=' ends the key. */
  function ParseBody(body: string): Line {
    var sep := IndexOf(body, '=');
    if sep == |body| then Ignored
    else
      var key := Trim(body[..sep]);
      if key == "" then Ignored else Setting(key, Trim(body[sep + 1..]))
  }

  function WithLine(settings: Settings, line: string): Settings {
    match ParseBody(Body(line))
    case Ignored => settings
    case Setting(key, value) => settings[key := value]
  }

  function FirstLine(text: string): (line: string)
    ensures '\n' !in line
  {
    text[..IndexOf(text, '\n')]
  }

  /** The text after the first line. */
  function AfterLine(text: string): (rest: string)
    ensures text != "" ==> |rest| < |text|
  {
    var n := IndexOf(text, '\n');
    if n < |text| then text[n + 1..] else ""
  }

  function WithText(settings: Settings, text: string): Settings
    decreases |text|
  {
    if text == "" then settings else WithText(WithLine(settings, FirstLine(text)), AfterLine(text))
  }

  /** The lines for some keys, in the order given. */
  function Written(settings: Settings, order: seq<string>): string
    requires forall k :: k in order ==> k in settings
  {
    if order == [] then ""
    else order[0] + ['='] + settings[order[0]] + ['\n'] + Written(settings, order[1..])
  }

  // ---------------------------------------------------------------- when saving and loading agree

  predicate CleanKey(key: string) {
    key != "" && Trimmed(key) && '#' !in key && '=' !in key && '\n' !in key
  }

  predicate CleanValue(value: string) {
    Trimmed(value) && '#' !in value && '\n' !in value
  }

  predicate Clean(settings: Settings) {
    forall k :: k in settings ==> CleanKey(k) && CleanValue(settings[k])
  }

  lemma ParsedIsClean(body: string)
    requires '#' !in body && '\n' !in body && ParseBody(body).Setting?
    ensures CleanKey(ParseBody(body).key) && CleanValue(ParseBody(body).value)
  {
    var sep := IndexOf(body, '=');
    assert forall c :: c in body[..sep] ==> c in body;
    assert forall c :: c in body[sep + 1..] ==> c in body;
  }

  /** Loading only ever adds clean settings, whatever the text. */
  lemma {:induction false} LoadedIsClean(settings: Settings, text: string)
    requires Clean(settings)
    ensures Clean(WithText(settings, text))
    decreases |text|
  {
    if text != "" {
      var line := FirstLine(text);
      if ParseBody(Body(line)).Setting? {
        ParsedIsClean(Body(line));
      }
      LoadedIsClean(WithLine(settings, line), AfterLine(text));
    }
  }

  lemma {:induction false} IndexOfAfter(before: string, c: char, after: string)
    requires c !in before
    ensures IndexOf(before + [c] + after, c) == |before|
  {
    if before != "" {
      IndexOfAfter(before[1..], c, after);
      assert (before + [c] + after)[1..] == before[1..] + [c] + after;
    }
  }

  lemma IndexOfNone(s: string, c: char)
    requires c !in s
    ensures IndexOf(s, c) == |s|
  {
  }

  lemma NoComment(line: string)
    requires '#' !in line
    ensures Body(line) == line
  {
    IndexOfNone(line, '#');
  }

  lemma SplitAgain(key: string, value: string)
    requires '=' !in key
    ensures var body := key + ['='] + value;
      && IndexOf(body, '=') == |key| < |body| && body[..|key|] == key && body[|key| + 1..] == value
  {
    IndexOfAfter(key, '=', value);
  }

  /** A written line reads back as its setting. */
  lemma CleanLine(key: string, value: string)
    requires CleanKey(key) && CleanValue(value)
    ensures ParseBody(Body(key + ['='] + value)) == Setting(key, value)
  {
    NoComment(key + ['='] + value);
    SplitAgain(key, value);
  }

  predicate Blank(s: string) {
    forall c :: c in s ==> Space(c)
  }

  lemma {:induction false} TrimLeftBlank(blank: string, s: string)
    requires Blank(blank) && (s == "" || !Space(s[0]))
    ensures TrimLeft(blank + s) == s
  {
    if blank == "" {
      assert blank + s == s;
    } else {
      assert (blank + s)[1..] == blank[1..] + s;
      TrimLeftBlank(blank[1..], s);
    }
  }

  lemma {:induction false} TrimRightBlank(s: string, blank: string)
    requires Blank(blank) && (s == "" || !Space(s[|s| - 1]))
    ensures TrimRight(s + blank) == s
  {
    if blank == "" {
      assert s + blank == s;
    } else {
      var last := |blank| - 1;
      assert (s + blank)[..|s + blank| - 1] == s + blank[..last];
      TrimRightBlank(s, blank[..last]);
    }
  }

  /** Trimming takes away blanks on both sides and nothing else. */
  lemma TrimExactly(before: string, s: string, after: string)
    requires Blank(before) && Blank(after) && Trimmed(s)
    ensures Trim(before + s + after) == s
  {
    if s == "" {
      assert before + s + after == (before + after) + "";
      TrimLeftBlank(before + after, "");
    } else {
      assert before + s + after == before + (s + after);
      TrimLeftBlank(before, s + after);
      TrimRightBlank(s, after);
    }
  }

  /** A line with a clean key and a clean value sets that key, whatever blanks stand around them and whatever comment
      follows. */
  lemma LineSets(settings: Settings, a: string, key: string, b: string, c: string, value: string, d: string,
                 line: string)
    requires forall x :: x in a || x in b || x in c || x in d ==> x == ' ' || x == '\t' || x == '\r' || x == '\n'
    requires CleanKey(key) && CleanValue(value)
    requires Body(line) == (a + key + b) + ['='] + (c + value + d)
    ensures WithLine(settings, line) == settings[key := value]
  {
    assert Blank(a) && Blank(b) && Blank(c) && Blank(d);
    TrimExactly(a, key, b);
    TrimExactly(c, value, d);
    ParseSplit(a + key + b, c + value + d);
  }

  lemma ParseSplit(left: string, right: string)
    requires '=' !in left && Trim(left) != ""
    ensures ParseBody(left + ['='] + right) == Setting(Trim(left), Trim(right))
  {
    SplitAgain(left, right);
  }

  /** A comment ends the line's content. */
  lemma BodyIsBefore(content: string, comment: string)
    requires '#' !in content
    ensures Body(content) == content && Body(content + ['#'] + comment) == content
  {
    NoComment(content);
    IndexOfAfter(content, '#', comment);
    assert (content + ['#'] + comment)[..|content|] == content;
  }

  lemma OnlyFirst(s: string, c: char, m: nat, n: nat)
    requires m < |s| && n < |s| && s[m] == c == s[n] && c !in s[..m] && c !in s[..n]
    ensures m == n
  {
    assert forall k :: 0 <= k < m ==> s[k] == s[..m][k];
    assert forall k :: 0 <= k < n ==> s[k] == s[..n][k];
  }

  /** A line sets something if and only if an equals sign comes before any comment, with more than blanks before it. */
  lemma LineSetsIff(settings: Settings, line: string)
    ensures ParseBody(Body(line)).Ignored? ==> WithLine(settings, line) == settings
    ensures ParseBody(Body(line)).Setting? <==>
      exists n :: 0 <= n < |Body(line)| && Body(line)[n] == '=' && !Blank(Body(line)[..n]) && '=' !in Body(line)[..n]
  {
    var body := Body(line);
    var sep := IndexOf(body, '=');
    if sep < |body| {
      EmptyIffBlank(body[..sep]);
      forall n: nat | n < |body| && body[n] == '=' && '=' !in body[..n]
        ensures n == sep
      {
        OnlyFirst(body, '=', sep, n);
      }
    }
  }

  lemma BlankTail(s: string, rest: string)
    requires s != "" && rest == s[1..]
    ensures Blank(s) <==> Space(s[0]) && Blank(rest)
  {
    assert s == [s[0]] + rest;
  }

  lemma {:induction false} LeftEmptyIff(s: string)
    ensures TrimLeft(s) == "" <==> Blank(s)
  {
    if s != "" && Space(s[0]) {
      LeftEmptyIff(s[1..]);
      BlankTail(s, s[1..]);
    }
  }

  lemma EmptyIffBlank(s: string)
    ensures Trim(s) == "" <==> Blank(s)
  {
    LeftEmptyIff(s);
    var t := TrimLeft(s);
    if t != "" {
      NotAllTrimmed(t);
    }
  }

  lemma {:induction false} NotAllTrimmed(s: string)
    requires s != "" && !Space(s[0])
    ensures TrimRight(s) != ""
  {
    if Space(s[|s| - 1]) {
      NotAllTrimmed(s[..|s| - 1]);
    }
  }

  /** Some settings laid over others. */
  function Overlay(base: Settings, settings: Settings, order: seq<string>): (r: Settings)
    requires forall k :: k in order ==> k in settings
    ensures forall k :: k in r <==> k in base || k in order
    ensures forall k :: k in r ==> r[k] == if k in order then settings[k] else base[k]
    decreases |order|
  {
    if order == [] then base else Overlay(base[order[0] := settings[order[0]]], settings, order[1..])
  }

  lemma FirstWritten(line: string, rest: string)
    requires '\n' !in line
    ensures FirstLine(line + ['\n'] + rest) == line && AfterLine(line + ['\n'] + rest) == rest
  {
    IndexOfAfter(line, '\n', rest);
    assert (line + ['\n'] + rest)[..|line|] == line && (line + ['\n'] + rest)[|line| + 1..] == rest;
  }

  /** Loading saved clean settings on top of others overrides those keys and keeps the rest. */
  lemma {:induction false} CleanSavedLoads(base: Settings, settings: Settings, order: seq<string>)
    requires Clean(settings) && forall k :: k in order ==> k in settings
    ensures WithText(base, Written(settings, order)) == Overlay(base, settings, order)
    decreases |order|
  {
    if order != [] {
      var key, value, rest := order[0], settings[order[0]], Written(settings, order[1..]);
      FirstWritten(key + ['='] + value, rest);
      CleanLine(key, value);
      CleanSavedLoads(base[key := value], settings, order[1..]);
    }
  }

  lemma OverlayAll(empty: Settings, settings: Settings, order: seq<string>)
    requires empty == map[] && forall k :: k in order <==> k in settings
    ensures Overlay(empty, settings, order) == settings
  {
  }

  /** Saving and then loading into an empty configuration gives the settings back if and only if every one is clean,
      in whatever order they are written. */
  lemma SaveThenLoad(empty: Settings, settings: Settings, order: seq<string>)
    requires empty == map[] && forall k :: k in order <==> k in settings
    ensures WithText(empty, Written(settings, order)) == settings <==> Clean(settings)
  {
    LoadedIsClean(empty, Written(settings, order));
    if Clean(settings) {
      CleanSavedLoads(empty, settings, order);
      OverlayAll(empty, settings, order);
    }
  }

  /** A line with a comment reads back as if it ended there. */
  lemma CutLine(key: string, value: string, rest: string)
    requires CleanKey(key) && CleanValue(value)
    ensures ParseBody(Body(key + ['='] + value + ['#'] + rest)) == Setting(key, value)
  {
    var body := key + ['='] + value;
    IndexOfAfter(body, '#', rest);
    assert (body + ['#'] + rest)[..|body|] == body;
    SplitAgain(key, value);
  }

  lemma WrittenOne(settings: Settings, order: seq<string>, line: string)
    requires |order| == 1 && order[0] in settings && line == order[0] + ['='] + settings[order[0]]
    ensures Written(settings, order) == line + ['\n'] + ""
  {
    assert order[1..] == [] && Written(settings, order[1..]) == "";
  }

  lemma LoadedOne(empty: Settings, line: string, key: string, value: string)
    requires empty == map[] && '\n' !in line && ParseBody(Body(line)) == Setting(key, value)
    ensures WithText(empty, line + ['\n'] + "") == map[key := value]
  {
    FirstWritten(line, "");
    assert WithText(WithLine(empty, line), "") == WithLine(empty, line);
  }

  lemma Regroup<T>(a: seq<T>, b: seq<T>, c: seq<T>, d: seq<T>)
    ensures a + (b + c + d) == a + b + c + d
  {
  }

  /** For instance a value with a '#' comes back cut short. */
  lemma CommentCutsValue(empty: Settings, settings: Settings, order: seq<string>, value: string, rest: string)
    requires empty == map[] && |order| == 1 && order[0] in settings && settings[order[0]] == value + ['#'] + rest
    requires CleanKey(order[0]) && CleanValue(value) && '\n' !in rest
    ensures WithText(empty, Written(settings, order)) == map[order[0] := value]
    ensures value != settings[order[0]]
  {
    var key, long := order[0], settings[order[0]];
    var line := key + ['='] + long;
    Regroup(key + ['='], value, ['#'], rest);
    CutLine(key, value, rest);
    WrittenOne(settings, order, line);
    LoadedOne(empty, line, key, value);
    assert |long| > |value|;
  }

  /** Whatever a file held, what was loaded from it survives being saved and loaded again. */
  lemma LoadedSurvives(empty: Settings, text: string, order: seq<string>)
    requires empty == map[] && forall k :: k in order <==> k in WithText(empty, text)
    ensures WithText(empty, Written(WithText(empty, text), order)) == WithText(empty, text)
  {
    LoadedIsClean(empty, text);
    SaveThenLoad(empty, WithText(empty, text), order);
  }

  // ---------------------------------------------------------------- the object

  class Config {
    var settings: Settings

    constructor ()
      ensures settings == map[]
    {
      settings := map[];
    }

    method WithoutComment(text: string) returns (line: string)
      ensures line == Body(text)
    {
      line := text;
      var comment := IndexOf(line, '#');
      if comment != |line| {
        line := line[..comment];
      }
    }

    method SplitLine(line: string) returns (parsed: Line)
      ensures parsed == ParseBody(line)
    {
      parsed := Ignored;
      var sep := IndexOf(line, '=');
      if sep != |line| {
        var key, value := Trim(line[..sep]), Trim(line[sep + 1..]);
        if key != "" {
          parsed := Setting(key, value);
        }
      }
    }

    method LoadLine(text: string)
      modifies this
      ensures settings == WithLine(old(settings), text)
    {
      var line := WithoutComment(text);
      var parsed := SplitLine(line);
      if parsed.Setting? {
        settings := settings[parsed.key := parsed.value];
      }
    }

    /** Reads a file on top of the present settings; None is a file that cannot be opened. */
    method Load(file: Wrappers.Option<string>) returns (ok: bool)
      modifies this
      ensures ok == file.Some?
      ensures settings == if ok then WithText(old(settings), file.value) else old(settings)
    {
      if file.None? {
        return false;
      }
      var rest := file.value;
      while rest != ""
        invariant WithText(settings, rest) == WithText(old(settings), file.value)
        decreases |rest|
      {
        LoadLine(FirstLine(rest));
        rest := AfterLine(rest);
      }
      return true;
    }

    /** Writes one line per setting, in the order of the map's iteration. */
    method Save(order: seq<string>, canOpen: bool) returns (ok: bool, text: string)
      requires forall k :: k in order <==> k in settings
      ensures ok == canOpen
      ensures ok ==> text == Written(settings, order)
    {
      text := "";
      if !canOpen {
        return false, text;
      }
      for i := 0 to |order|
        invariant text + Written(settings, order[i..]) == Written(settings, order)
      {
        var line := order[i] + ['='] + settings[order[i]] + ['\n'];
        assert order[i..][1..] == order[i + 1..];
        assert text + (line + Written(settings, order[i + 1..])) == text + line + Written(settings, order[i + 1..]);
        text := text + line;
      }
      assert order[|order|..] == [];
      return true, text;
    }
  }
}
