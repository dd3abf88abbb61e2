/** Two normalisers: the slug of a saved query (store/query_store.py, _make_slug) and the table
    name of a data set (store/dataset_manager.py, _normalize_name). They work by different regular
    expressions, and both come down to joining the alphanumeric words of their input.
    Lower-casing and the file stem are parameters that leave finished names alone. */
module Names {

  predicate Alnum(c: char) {
    'a' <= c <= 'z' || '0' <= c <= '9'
  }

  // ----- The regular expressions of the source -----

  /** re.sub(r"[^a-z0-9]+", "-", s): every maximal run becomes one hyphen. */
  function DashRuns(s: string): string
    decreases |s|
  {
    if s == [] then []
    else if Alnum(s[0]) then [s[0]] + DashRuns(s[1..])
    else ['-'] + DashRuns(SkipRun(s))
  }

  function SkipRun(s: string): (r: string)
    ensures |r| <= |s| && (s != [] && !Alnum(s[0]) ==> |r| < |s|)
  {
    if s == [] || Alnum(s[0]) then s else SkipRun(s[1..])
  }

  /** re.sub(r"[^a-z0-9_]", "_", s): every other character on its own. */
  function Underscored(s: string): string {
    seq(|s|, i requires 0 <= i < |s| => if Alnum(s[i]) then s[i] else '_')
  }

  /** re.sub(r"_+", "_", s). */
  function Collapsed(s: string): string {
    if |s| < 2 then s
    else if s[0] == '_' && s[1] == '_' then Collapsed(s[1..])
    else [s[0]] + Collapsed(s[1..])
  }

  function StripLeft(s: string, c: char): string {
    if s != [] && s[0] == c then StripLeft(s[1..], c) else s
  }

  function StripRight(s: string, c: char): string {
    if s != [] && s[|s| - 1] == c then StripRight(s[..|s| - 1], c) else s
  }

  /** s.strip(c). */
  function Strip(s: string, c: char): string {
    StripRight(StripLeft(s, c), c)
  }

  function MakeSlug(lower: string -> string, title: string): string {
    var slug := Strip(DashRuns(lower(title)), '-');
    if slug == "" then "query" else slug
  }

  function NormalizeName(stem: string -> string, lower: string -> string, filename: string): string {
    Strip(Collapsed(Underscored(lower(stem(filename)))), '_')
  }

  // ----- The reference: words -----

  /** The maximal alphanumeric runs of a text. */
  function Words(s: string): seq<string> {
    if s == [] then []
    else if !Alnum(s[0]) then Words(s[1..])
    else if |s| == 1 || !Alnum(s[1]) then [[s[0]]] + Words(s[1..])
    else
      var rest := Words(s[1..]);
      if rest == [] then [[s[0]]] else [[s[0]] + rest[0]] + rest[1..]
  }

  function Join(words: seq<string>, c: char): string {
    if words == [] then []
    else if |words| == 1 then words[0]
    else words[0] + [c] + Join(words[1..], c)
  }

  ghost predicate Proper(words: seq<string>) {
    forall i :: 0 <= i < |words| ==> words[i] != [] && forall j :: 0 <= j < |words[i]| ==> Alnum(words[i][j])
  }

  lemma {:induction false} WordsAreProper(s: string)
    ensures Proper(Words(s))
    ensures s != [] && Alnum(s[0]) ==> Words(s) != [] && Words(s)[0][0] == s[0]
  {
    if s != [] {
      WordsAreProper(s[1..]);
    }
  }

  /** What both pipelines compute before stripping: the joined words, with a separator in front
      if the text starts with something else, and one behind if it ends so. */
  function Framed(s: string, c: char): string {
    (if s != [] && !Alnum(s[0]) then [c] else [])
    + Join(Words(s), c)
    + (if Words(s) != [] && !Alnum(s[|s| - 1]) then [c] else [])
  }

  lemma {:induction false} SkipRunWords(s: string)
    ensures Words(SkipRun(s)) == Words(s)
    ensures SkipRun(s) != [] ==> Alnum(SkipRun(s)[0]) && SkipRun(s)[|SkipRun(s)| - 1] == s[|s| - 1]
    ensures SkipRun(s) == [] ==> Words(s) == []
  {
    if s != [] && !Alnum(s[0]) {
      SkipRunWords(s[1..]);
    }
  }

  lemma {:induction false} ConsWords(s: string)
    requires s != [] && Alnum(s[0])
    ensures var rest := Words(s[1..]);
      if |s| > 1 && Alnum(s[1]) then rest != [] && Words(s) == [[s[0]] + rest[0]] + rest[1..]
      else Words(s) == [[s[0]]] + rest
  {
  }

  lemma {:induction false} ConsJoin(s: string, c: char)
    requires s != [] && Alnum(s[0])
    ensures Join(Words(s), c) ==
      [s[0]] + (if (|s| == 1 || !Alnum(s[1])) && Words(s[1..]) != [] then [c] else []) + Join(Words(s[1..]), c)
  {
  }

  /** Putting one more alphanumeric character in front. */
  lemma {:induction false} ConsFramed(s: string, c: char)
    requires s != [] && Alnum(s[0])
    ensures Framed(s, c) == [s[0]] + Framed(s[1..], c)
  {
    if |s| == 1 {
      assert Words(s) == [[s[0]]] && s[1..] == [];
    } else if Words(s[1..]) == [] {
      ConsFramedBare(s, c);
    } else {
      ConsFramedWordy(s, c);
    }
  }

  lemma {:induction false} ConsFramedBare(s: string, c: char)
    requires |s| > 1 && Alnum(s[0]) && Words(s[1..]) == []
    ensures Framed(s, c) == [s[0]] + Framed(s[1..], c)
  {
    var t := s[1..];
    NoWords(t);
    assert !Alnum(t[0]) && !Alnum(t[|t| - 1]);
    assert Framed(t, c) == [c];
    ConsWords(s);
    assert Words(s) == [[s[0]]];
    assert Framed(s, c) == [s[0]] + [c];
  }

  function Separator(needed: bool, c: char): string {
    if needed then [c] else []
  }

  lemma {:induction false} FramedParts(s: string, c: char)
    requires s != [] && Words(s) != []
    ensures Framed(s, c) == Separator(!Alnum(s[0]), c) + Join(Words(s), c) + Separator(!Alnum(s[|s| - 1]), c)
  {
  }

  lemma Regroup(head: string, left: string, middle: string, right: string)
    ensures [] + (head + left + middle) + right == head + (left + middle + right)
  {
  }

  lemma {:induction false} ConsFramedWordy(s: string, c: char)
    requires |s| > 1 && Alnum(s[0]) && Words(s[1..]) != []
    ensures Framed(s, c) == [s[0]] + Framed(s[1..], c)
  {
    var t := s[1..];
    assert t[0] == s[1] && t[|t| - 1] == s[|s| - 1];
    var left, middle, right := Separator(!Alnum(s[1]), c), Join(Words(t), c), Separator(!Alnum(s[|s| - 1]), c);
    assert Framed(t, c) == left + middle + right by {
      FramedParts(t, c);
    }
    assert Framed(s, c) == [] + Join(Words(s), c) + right by {
      ConsWords(s);
      FramedParts(s, c);
    }
    assert Join(Words(s), c) == [s[0]] + left + middle by {
      ConsJoin(s, c);
    }
    Regroup([s[0]], left, middle, right);
  }

  lemma {:induction false} NoWords(s: string)
    requires Words(s) == []
    ensures forall i :: 0 <= i < |s| ==> !Alnum(s[i])
  {
    if s != [] {
      WordsAreProper(s);
      NoWords(s[1..]);
      assert forall i :: 1 <= i < |s| ==> s[i] == s[1..][i - 1];
    }
  }

  lemma SkipFramed(s: string, c: char)
    requires s != [] && !Alnum(s[0])
    ensures Framed(s, c) == [c] + Framed(SkipRun(s), c)
  {
    SkipRunWords(s);
  }

  lemma {:induction false} DashRunsFramed(s: string)
    ensures DashRuns(s) == Framed(s, '-')
    decreases |s|
  {
    if s != [] {
      if Alnum(s[0]) {
        DashRunsFramed(s[1..]);
        ConsFramed(s, '-');
      } else {
        DashRunsFramed(SkipRun(s));
        SkipFramed(s, '-');
      }
    }
  }

  lemma {:induction false} CollapsedFramed(s: string)
    ensures Collapsed(Underscored(s)) == Framed(s, '_')
  {
    var u := Underscored(s);
    if s == [] {
    } else {
      assert u[1..] == Underscored(s[1..]);
      CollapsedFramed(s[1..]);
      if Alnum(s[0]) {
        ConsFramed(s, '_');
        if |s| == 1 {
          assert Underscored(s[1..]) == [];
        }
      } else if |s| == 1 {
        assert u == ['_'];
        assert Words(s) == Words(s[1..]) == [];
      } else if Alnum(s[1]) {
        assert Framed(s, '_') == ['_'] + Framed(s[1..], '_');
      } else {
        assert Framed(s, '_') == Framed(s[1..], '_');
      }
    }
  }

  lemma {:induction false} JoinEnds(words: seq<string>, c: char)
    requires Proper(words) && words != [] && !Alnum(c)
    ensures var j := Join(words, c); j != [] && Alnum(j[0]) && Alnum(j[|j| - 1])
  {
    if |words| > 1 {
      JoinEnds(words[1..], c);
    }
  }

  lemma StripFrame(j: string, left: bool, right: bool, c: char)
    requires j != [] && j[0] != c && j[|j| - 1] != c
    ensures Strip((if left then [c] else []) + j + (if right then [c] else []), c) == j
  {
    var tail := j + if right then [c] else [];
    var s := (if left then [c] else []) + j + (if right then [c] else []);
    if left {
      assert s[1..] == tail;
    } else {
      assert s == tail;
    }
    assert StripLeft(tail, c) == tail;
    assert StripRight(j, c) == j;
    if right {
      assert tail[..|tail| - 1] == j;
    } else {
      assert tail == j;
    }
  }

  lemma StripFramed(s: string, c: char)
    requires !Alnum(c)
    ensures Strip(Framed(s, c), c) == Join(Words(s), c)
  {
    WordsAreProper(s);
    if Words(s) != [] {
      JoinEnds(Words(s), c);
      StripFrame(Join(Words(s), c), s != [] && !Alnum(s[0]), !Alnum(s[|s| - 1]), c);
    } else if s != [] && !Alnum(s[0]) {
      assert Framed(s, c) == [c];
      assert [c][1..] == [];
    }
  }

  /** Both normalisers join the words of their input. */
  lemma BothJoinWords(stem: string -> string, lower: string -> string, text: string)
    ensures MakeSlug(lower, text) ==
      var joined := Join(Words(lower(text)), '-'); if joined == "" then "query" else joined
    ensures NormalizeName(stem, lower, text) == Join(Words(lower(stem(text))), '_')
  {
    DashRunsFramed(lower(text));
    StripFramed(lower(text), '-');
    CollapsedFramed(lower(stem(text)));
    StripFramed(lower(stem(text)), '_');
  }

  // ----- Finished names -----

  /** Words joined by single separators: no separator first, last or doubled. */
  ghost predicate Finished(s: string, c: char) {
    && (forall i :: 0 <= i < |s| ==> Alnum(s[i]) || s[i] == c)
    && (s != [] ==> s[0] != c && s[|s| - 1] != c)
    && (forall i :: 0 <= i < |s| - 1 ==> s[i] != c || s[i + 1] != c)
  }

  lemma {:induction false} JoinIsFinished(words: seq<string>, c: char)
    requires Proper(words) && !Alnum(c)
    ensures Finished(Join(words, c), c)
  {
    if words != [] {
      JoinEnds(words, c);
    }
    if |words| > 1 {
      JoinIsFinished(words[1..], c);
      JoinEnds(words[1..], c);
      var w, rest := words[0], Join(words[1..], c);
      var s := w + [c] + rest;
      assert forall i :: 0 <= i < |w| ==> s[i] == w[i];
      assert forall i :: 0 <= i < |rest| ==> s[|w| + 1 + i] == rest[i];
      forall i | 0 <= i < |s|
        ensures Alnum(s[i]) || s[i] == c
        ensures i < |s| - 1 ==> s[i] != c || s[i + 1] != c
      {
        if i > |w| {
          assert s[i] == rest[i - |w| - 1];
          if i < |s| - 1 {
            assert s[i + 1] == rest[i - |w|];
          }
        }
      }
    }
  }

  /** A finished name is the join of its own words. */
  lemma {:induction false} FinishedJoins(s: string, c: char)
    requires Finished(s, c) && !Alnum(c)
    ensures Join(Words(s), c) == s
  {
    if s != [] {
      FinishedFramed(s, c);
    }
  }

  lemma {:induction false} FinishedFramed(s: string, c: char)
    requires !Alnum(c)
    requires forall i :: 0 <= i < |s| ==> Alnum(s[i]) || s[i] == c
    requires s != [] ==> s[|s| - 1] != c
    requires forall i :: 0 <= i < |s| - 1 ==> s[i] != c || s[i + 1] != c
    ensures Framed(s, c) == s
  {
    if s != [] {
      FinishedFramed(s[1..], c);
      if Alnum(s[0]) {
        ConsFramed(s, c);
      } else {
        assert Words(s) == Words(s[1..]);
        assert |s| > 1 && s[1] != c;
      }
    }
  }

  /** The slug pattern of GET /queries/{slug}, without its length limit. */
  predicate SlugPattern(s: string) {
    && s != [] && s[0] != '-'
    && forall i :: 0 <= i < |s| ==> 'a' <= s[i] <= 'z' || '0' <= s[i] <= '9' || s[i] == '-'
  }

  ghost predicate KeepsFinished(f: string -> string, c: char) {
    forall s :: Finished(s, c) ==> f(s) == s
  }

  /** A slug is a finished, non-empty name that the route accepts; and the slugs are exactly the texts
      that are their own slug: small letters and digits, with single hyphens between them. */
  lemma SlugsAreFixedPoints(lower: string -> string, s: string)
    requires KeepsFinished(lower, '-')
    ensures var slug := MakeSlug(lower, s);
      && Finished(slug, '-') && SlugPattern(slug)
      && MakeSlug(lower, slug) == slug
    ensures MakeSlug(lower, s) == s <==>
      && s != "" && s[0] != '-' && s[|s| - 1] != '-'
      && (forall i :: 0 <= i < |s| ==> 'a' <= s[i] <= 'z' || '0' <= s[i] <= '9' || s[i] == '-')
      && (forall i :: 0 <= i < |s| - 1 ==> s[i] != '-' || s[i + 1] != '-')
  {
    var slug := MakeSlug(lower, s);
    SlugIsFinished(lower, s);
    FinishedIsItsOwnSlug(lower, slug);
    if Finished(s, '-') && s != "" {
      FinishedIsItsOwnSlug(lower, s);
    }
  }

  lemma SlugIsFinished(lower: string -> string, s: string)
    ensures Finished(MakeSlug(lower, s), '-') && MakeSlug(lower, s) != ""
  {
    BothJoinWords(x => x, lower, s);
    WordsAreProper(lower(s));
    JoinIsFinished(Words(lower(s)), '-');
    QueryIsFinished();
  }

  lemma QueryIsFinished()
    ensures Finished("query", '-')
  {
  }

  lemma FinishedIsItsOwnSlug(lower: string -> string, s: string)
    requires KeepsFinished(lower, '-') && Finished(s, '-') && s != ""
    ensures MakeSlug(lower, s) == s
  {
    BothJoinWords(x => x, lower, s);
    FinishedJoins(s, '-');
  }

  /** Likewise for table names, which may also come out empty. */
  lemma NamesAreFixedPoints(stem: string -> string, lower: string -> string, s: string)
    requires KeepsFinished(lower, '_') && KeepsFinished(stem, '_')
    ensures var name := NormalizeName(stem, lower, s);
      Finished(name, '_') && NormalizeName(stem, lower, name) == name
    ensures NormalizeName(stem, lower, s) == s <==>
      && (s != "" ==> s[0] != '_' && s[|s| - 1] != '_')
      && (forall i :: 0 <= i < |s| ==> 'a' <= s[i] <= 'z' || '0' <= s[i] <= '9' || s[i] == '_')
      && (forall i :: 0 <= i < |s| - 1 ==> s[i] != '_' || s[i + 1] != '_')
  {
    var name := NormalizeName(stem, lower, s);
    BothJoinWords(stem, lower, s);
    WordsAreProper(lower(stem(s)));
    JoinIsFinished(Words(lower(stem(s))), '_');
    BothJoinWords(stem, lower, name);
    FinishedJoins(name, '_');
    if Finished(s, '_') {
      FinishedJoins(s, '_');
    }
  }

  /** Nothing but separators is lost: a slug has the words of the lower-cased title. */
  lemma SlugKeepsWords(lower: string -> string, title: string)
    requires Words(lower(title)) != []
    ensures Words(MakeSlug(lower, title)) == Words(lower(title))
  {
    BothJoinWords(x => x, lower, title);
    WordsAreProper(lower(title));
    JoinEnds(Words(lower(title)), '-');
    WordsOfJoin(Words(lower(title)), '-');
  }

  lemma {:induction false} WordsOfJoin(words: seq<string>, c: char)
    requires Proper(words) && !Alnum(c)
    ensures Words(Join(words, c)) == words
  {
    if |words| == 1 {
      WordsOfWord(words[0], []);
      assert words[0] + [] == words[0];
    } else if |words| > 1 {
      WordsOfJoin(words[1..], c);
      var tail := [c] + Join(words[1..], c);
      assert tail[1..] == Join(words[1..], c);
      WordsOfWord(words[0], tail);
      assert Join(words, c) == words[0] + tail;
      assert words == [words[0]] + words[1..];
    }
  }

  lemma {:induction false} WordsOfWord(w: string, tail: string)
    requires w != [] && forall j :: 0 <= j < |w| ==> Alnum(w[j])
    requires tail == [] || !Alnum(tail[0])
    ensures Words(w + tail) == [w] + Words(tail)
  {
    var s := w + tail;
    assert s[1..] == w[1..] + tail;
    if |w| > 1 {
      WordsOfWord(w[1..], tail);
      assert [s[0]] + w[1..] == w;
    } else {
      assert w[1..] == [] && [] + tail == tail;
      assert w == [s[0]];
    }
  }
}
