/** `slugify`: the id of a heading is made of its words. */
module Slugs {
  import opened Decimal

  predicate IsAlphanumeric(c: char) {
    'a' <= c <= 'z' || 'A' <= c <= 'Z' || '0' <= c <= '9'
  }

  predicate IsSlugChar(c: char) {
    'a' <= c <= 'z' || '0' <= c <= '9'
  }

  function Lower(c: char): (r: char)
    ensures IsAlphanumeric(c) ==> IsSlugChar(r)
    ensures IsSlugChar(c) ==> r == c
  {
    if 'A' <= c <= 'Z' then (c as int - 'A' as int + 'a' as int) as char else c
  }

  const CAPITALS := "ABCDEFGHIJKLMNOPQRSTUVWXYZ"
  const SMALL := "abcdefghijklmnopqrstuvwxyz"
  const DIGITS := "0123456789"

  lemma CapitalsAre(c: char)
    ensures |CAPITALS| == 26 && forall i :: 0 <= i < 26 ==> CAPITALS[i] as int == 'A' as int + i
    ensures c in CAPITALS <==> 'A' <= c <= 'Z'
  {
    assert 'A' <= c <= 'Z' ==> CAPITALS[c as int - 'A' as int] == c;
  }

  lemma SmallAre(c: char)
    ensures |SMALL| == 26 && forall i :: 0 <= i < 26 ==> SMALL[i] as int == 'a' as int + i
    ensures c in SMALL <==> 'a' <= c <= 'z'
  {
    assert 'a' <= c <= 'z' ==> SMALL[c as int - 'a' as int] == c;
  }

  lemma DigitsAre(c: char)
    ensures c in DIGITS <==> '0' <= c <= '9'
  {
    assert |DIGITS| == 10 && forall i :: 0 <= i < 10 ==> DIGITS[i] as int == '0' as int + i;
    assert '0' <= c <= '9' ==> DIGITS[c as int - '0' as int] == c;
  }

  /** Letters and digits are these, and each capital letter is turned into its small one. */
  lemma LettersAndDigits(c: char)
    ensures IsAlphanumeric(c) <==> c in CAPITALS || c in SMALL || c in DIGITS
    ensures |SMALL| == |CAPITALS| && forall i :: 0 <= i < |CAPITALS| ==> Lower(CAPITALS[i]) == SMALL[i]
  {
    CapitalsAre(c);
    SmallAre(c);
    DigitsAre(c);
    forall i | 0 <= i < 26 ensures Lower(CAPITALS[i]) == SMALL[i] {
      assert CAPITALS[i] as int - 'A' as int + 'a' as int == SMALL[i] as int;
    }
  }

  predicate IsWord(w: string) {
    w != "" && forall i :: 0 <= i < |w| ==> IsSlugChar(w[i])
  }

  predicate AllWords(ws: seq<string>) {
    forall i :: 0 <= i < |ws| ==> IsWord(ws[i])
  }

  predicate EndsInWord(s: string) {
    s != "" && IsAlphanumeric(s[|s| - 1])
  }

  /** The maximal runs of ASCII letters and digits, in lower case. */
  function Words(s: string): (ws: seq<string>)
    ensures AllWords(ws)
    ensures EndsInWord(s) ==> ws != []
  {
    if s == "" then []
    else
      var before, c := s[..|s| - 1], s[|s| - 1];
      var ws := Words(before);
      if !IsAlphanumeric(c) then ws
      else if EndsInWord(before) then ws[..|ws| - 1] + [ws[|ws| - 1] + [Lower(c)]]
      else ws + [[Lower(c)]]
  }

  /** What `slugify` has to give. */
  function Slug(s: string): (r: string) {
    if Words(s) == [] then "section" else Join(Words(s), '-')
  }

  // ---------------------------------------------------------------- the loop

  lemma {:induction false} JoinMore(ws: seq<string>, w: string)
    requires ws != []
    ensures Join(ws + [w], '-') == Join(ws, '-') + "-" + w
    decreases |ws|
  {
    if |ws| > 1 {
      assert (ws + [w])[1..] == ws[1..] + [w];
      JoinMore(ws[1..], w);
    } else {
      assert (ws + [w])[1..] == [w];
    }
  }

  lemma {:induction false} JoinLonger(ws: seq<string>, c: char)
    requires ws != []
    ensures Join(ws[..|ws| - 1] + [ws[|ws| - 1] + [c]], '-') == Join(ws, '-') + [c]
    decreases |ws|
  {
    var longer := ws[..|ws| - 1] + [ws[|ws| - 1] + [c]];
    if |ws| > 1 {
      assert longer[1..] == ws[1..][..|ws| - 2] + [ws[1..][|ws| - 2] + [c]];
      JoinLonger(ws[1..], c);
    }
  }

  /** The text built so far: the words joined, with a dash for what lies before and after them. */
  predicate Built(slug: string, previousDash: bool, s: string) {
    && (previousDash <==> s != "" && !EndsInWord(s))
    && (Words(s) == [] ==> slug == if previousDash then "-" else "")
    && (Words(s) != [] ==>
          var body := Join(Words(s), '-') + (if previousDash then "-" else "");
          slug == body || slug == "-" + body)
  }

  lemma BuiltWord(slug: string, previousDash: bool, s: string, c: char)
    requires Built(slug, previousDash, s) && IsAlphanumeric(c)
    ensures Built(slug + [Lower(c)], false, s + [c])
  {
    var ws := Words(s);
    assert (s + [c])[..|s|] == s;
    if EndsInWord(s) {
      JoinLonger(ws, Lower(c));
    } else if ws == [] {
      assert Words(s + [c]) == [[Lower(c)]];
    } else {
      JoinMore(ws, [Lower(c)]);
    }
  }

  lemma BuiltDash(slug: string, previousDash: bool, s: string, c: char)
    requires Built(slug, previousDash, s) && !IsAlphanumeric(c)
    ensures Built(if previousDash then slug else slug + "-", true, s + [c])
  {
    assert (s + [c])[..|s|] == s;
  }

  function TrimDashesStart(s: string): string {
    if s != "" && s[0] == '-' then TrimDashesStart(s[1..]) else s
  }

  function TrimDashesEnd(s: string): string {
    if s != "" && s[|s| - 1] == '-' then TrimDashesEnd(s[..|s| - 1]) else s
  }

  /** `slugify`. */
  method Slugify(input: string) returns (r: string)
    ensures r == Slug(input)
  {
    var slug, previousDash := "", false;
    for i := 0 to |input|
      invariant Built(slug, previousDash, input[..i])
    {
      assert input[..i + 1] == input[..i] + [input[i]];
      if IsAlphanumeric(input[i]) {
        BuiltWord(slug, previousDash, input[..i], input[i]);
        slug, previousDash := slug + [Lower(input[i])], false;
        continue;
      }
      BuiltDash(slug, previousDash, input[..i], input[i]);
      if !previousDash {
        slug, previousDash := slug + "-", true;
      }
    }
    assert input[..|input|] == input;
    Trimmed(slug, previousDash, input);
    var trimmed := TrimDashesEnd(TrimDashesStart(slug));
    r := if trimmed == "" then "section" else trimmed;
  }

  lemma Trimmed(slug: string, previousDash: bool, s: string)
    requires Built(slug, previousDash, s)
    ensures TrimDashesEnd(TrimDashesStart(slug)) == if Words(s) == [] then "" else Join(Words(s), '-')
  {
    if Words(s) != [] {
      var body := Join(Words(s), '-');
      JoinedEnds(Words(s));
      TrimOne(body, slug, if previousDash then "-" else "");
    }
  }

  lemma TrimOne(body: string, slug: string, tail: string)
    requires body != "" && IsSlugChar(body[0]) && IsSlugChar(body[|body| - 1])
    requires (tail == "" || tail == "-") && (slug == body + tail || slug == "-" + (body + tail))
    ensures TrimDashesEnd(TrimDashesStart(slug)) == body
  {
    assert ("-" + (body + tail))[1..] == body + tail;
    assert TrimDashesStart(slug) == body + tail;
    assert (body + "-")[..|body|] == body && body + "" == body;
  }

  /** Joined words neither start nor end with a dash. */
  lemma {:induction false} JoinedEnds(ws: seq<string>)
    requires ws != [] && AllWords(ws)
    ensures var s := Join(ws, '-'); s != "" && IsSlugChar(s[0]) && IsSlugChar(s[|s| - 1])
    decreases |ws|
  {
    assert IsWord(ws[0]);
    if |ws| > 1 {
      JoinedEnds(ws[1..]);
      var s, rest := Join(ws, '-'), Join(ws[1..], '-');
      assert s[|s| - 1] == rest[|rest| - 1];
    }
  }

  // ---------------------------------------------------------------- its shape

  lemma {:induction false} WordsOfWord(s: string, w: string)
    requires !EndsInWord(s) && IsWord(w)
    ensures Words(s + w) == Words(s) + [w]
    ensures EndsInWord(s + w)
    decreases |w|
  {
    var front, c := w[..|w| - 1], w[|w| - 1];
    assert (s + w)[..|s + w| - 1] == s + front;
    assert w == front + [c];
    if front == "" {
      assert s + front == s;
    } else {
      WordsOfWord(s, front);
      assert (Words(s) + [front])[..|Words(s)|] == Words(s);
    }
  }

  /** The words of joined words are those words. */
  lemma {:induction false} WordsOfJoin(ws: seq<string>)
    requires ws != [] && AllWords(ws)
    ensures Words(Join(ws, '-')) == ws
    decreases |ws|
  {
    var front, w := ws[..|ws| - 1], ws[|ws| - 1];
    assert ws == front + [w];
    if front == [] {
      WordsOfWord("", w);
      assert "" + w == w;
    } else {
      WordsOfJoin(front);
      JoinMore(front, w);
      var s := Join(front, '-') + "-";
      assert s[..|s| - 1] == Join(front, '-');
      assert Words(s) == front;
      WordsOfWord(s, w);
    }
  }

  /** The words of a slug: those of the heading, or "section" for a heading without any. */
  function SlugWords(s: string): (ws: seq<string>)
    ensures ws != [] && AllWords(ws)
  {
    if Words(s) == [] then
      assert IsWord("section");
      ["section"]
    else Words(s)
  }

  /** A slug is words joined by single dashes. */
  lemma SlugIsWords(s: string)
    ensures Slug(s) == Join(SlugWords(s), '-')
    ensures Words(Slug(s)) == SlugWords(s)
  {
    WordsOfJoin(SlugWords(s));
  }

  /** Making a slug of a slug changes nothing. */
  lemma SlugIdempotent(s: string)
    ensures Slug(Slug(s)) == Slug(s)
  {
    SlugIsWords(s);
  }

  /** The slugs are exactly the texts that are words joined by single dashes. */
  lemma SlugsAre(r: string)
    ensures (exists s :: Slug(s) == r) <==> exists ws :: ws != [] && AllWords(ws) && r == Join(ws, '-')
  {
    if s :| Slug(s) == r {
      SlugIsWords(s);
    }
    if ws :| ws != [] && AllWords(ws) && r == Join(ws, '-') {
      WordsOfJoin(ws);
      assert Slug(r) == r;
    }
  }

  /** Two headings share a slug exactly when they have the same words. */
  lemma SameSlug(s: string, t: string)
    ensures Slug(s) == Slug(t) <==> SlugWords(s) == SlugWords(t)
  {
    SlugIsWords(s);
    SlugIsWords(t);
  }
}
