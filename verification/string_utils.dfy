/** Whitespace handling of the command line, in the "C" locale. */
module StringUtils {

  predicate IsSpace(c: char) {
    c == ' ' || '\t' <= c <= '\r'
  }

  function UpperChar(c: char): char {
    if 'a' <= c <= 'z' then c - 'a' + 'A' else c
  }

  function Upper(s: string): (u: string)
    ensures |u| == |s|
  {
    seq(|s|, i requires 0 <= i < |s| => UpperChar(s[i]))
  }

  method ToUpper(input: string) returns (upper: string)
    ensures upper == Upper(input)
  {
    upper := input;
    for i := 0 to |input|
      invariant |upper| == |input|
      invariant forall j | 0 <= j < i :: upper[j] == UpperChar(input[j])
      invariant forall j | i <= j < |input| :: upper[j] == input[j]
    {
      upper := upper[i := UpperChar(upper[i])];
    }
  }

  /** The capital `upper` or its small letter: the codes of the letters differ by 32. */
  predicate SameLetter(c: char, upper: char) {
    c == upper || ('A' <= upper <= 'Z' && c as int == upper as int + 32)
  }

  /** `word` is the capitalised `name` in some casing. */
  predicate Spells(word: string, name: string) {
    |word| == |name| && forall i | 0 <= i < |word| :: SameLetter(word[i], name[i])
  }

  /** Exactly the spellings of a name without small letters are mapped to it. */
  lemma UpperIffSpells(word: string, name: string)
    requires forall i | 0 <= i < |name| :: !('a' <= name[i] <= 'z')
    ensures Upper(word) == name <==> Spells(word, name)
  {
    if Spells(word, name) {
      forall i | 0 <= i < |word| ensures Upper(word)[i] == name[i] {
        assert SameLetter(word[i], name[i]);
      }
    }
    if Upper(word) == name {
      forall i | 0 <= i < |word| ensures SameLetter(word[i], name[i]) {
        assert Upper(word)[i] == name[i];
      }
    }
  }

  /** Only the codes 97 to 122 change, each by 32. */
  lemma UpperCodes(s: string)
    ensures |Upper(s)| == |s|
    ensures forall i | 0 <= i < |s| ::
      Upper(s)[i] as int == if 97 <= s[i] as int <= 122 then s[i] as int - 32 else s[i] as int
  {
  }

  predicate AllSpace(s: string) {
    forall i | 0 <= i < |s| :: IsSpace(s[i])
  }

  /** A nonempty text without whitespace. */
  predicate IsWord(s: string) {
    s != "" && forall i | 0 <= i < |s| :: !IsSpace(s[i])
  }

  /** The words of a text, in order. */
  function Words(s: string): seq<string>
    decreases |s|
  {
    if s == "" then []
    else if IsSpace(s[0]) then Words(s[1..])
    else [s[..WordEnd(s)]] + Words(s[WordEnd(s)..])
  }

  /** The length of the leading run without whitespace. */
  function WordEnd(s: string): (n: nat)
    ensures n <= |s|
    ensures forall i | 0 <= i < n :: !IsSpace(s[i])
    ensures n < |s| ==> IsSpace(s[n])
    ensures s != "" && !IsSpace(s[0]) ==> n > 0
  {
    if s == "" || IsSpace(s[0]) then 0 else 1 + WordEnd(s[1..])
  }

  function Join(words: seq<string>): string {
    if words == [] then ""
    else if |words| == 1 then words[0]
    else words[0] + " " + Join(words[1..])
  }

  // ---------- Laws of words ----------

  lemma WordThen(w: string, s: string)
    requires IsWord(w) && (s != "" ==> IsSpace(s[0]))
    ensures Words(w + s) == [w] + Words(s)
  {
    var t := w + s;
    var n := WordEnd(t);
    assert forall i | 0 <= i < |w| :: t[i] == w[i];
    assert s != "" ==> t[|w|] == s[0];
    assert n == |w| && t[..n] == w && t[n..] == s;
  }

  lemma {:induction false} WordsAreWords(s: string)
    ensures forall w :: w in Words(s) ==> IsWord(w)
    decreases |s|
  {
    if s == "" {
    } else {
      if IsSpace(s[0]) {
        WordsAreWords(s[1..]);
      } else {
        WordsAreWords(s[WordEnd(s)..]);
      }
    }
  }

  lemma {:induction false} NoWordsIffAllSpace(s: string)
    ensures Words(s) == [] <==> AllSpace(s)
    decreases |s|
  {
    if s == "" || !IsSpace(s[0]) {
    } else {
      NoWordsIffAllSpace(s[1..]);
      assert AllSpace(s[1..]) ==> forall i | 1 <= i < |s| :: s[i] == s[1..][i - 1];
    }
  }

  lemma {:induction false} LeadingSpace(pre: string, s: string)
    requires AllSpace(pre)
    ensures Words(pre + s) == Words(s)
  {
    if pre == "" {
      assert pre + s == s;
    } else {
      LeadingSpace(pre[1..], s);
      assert (pre + s)[1..] == pre[1..] + s;
    }
  }

  lemma TrailingAfterWord(w: string, s: string, post: string)
    requires IsWord(w) && (s != "" ==> IsSpace(s[0])) && AllSpace(post)
    requires Words(s + post) == Words(s)
    ensures Words((w + s) + post) == Words(w + s)
  {
    hide Words, IsWord;
    assert (w + s) + post == w + (s + post);
    WordThen(w, s + post);
    WordThen(w, s);
  }

  lemma TrailingAfterSpace(s: string, post: string)
    requires s != "" && IsSpace(s[0]) && Words(s[1..] + post) == Words(s[1..])
    ensures Words(s + post) == Words(s)
  {
    assert (s + post)[1..] == s[1..] + post;
  }

  lemma {:induction false} TrailingSpace(s: string, post: string)
    requires AllSpace(post)
    ensures Words(s + post) == Words(s)
    decreases |s|
  {
    if s == "" {
      NoWordsIffAllSpace(post);
      assert s + post == post;
    } else if IsSpace(s[0]) {
      hide Words, AllSpace;
      TrailingSpace(s[1..], post);
      TrailingAfterSpace(s, post);
    } else {
      var n := WordEnd(s);
      var w, rest := s[..n], s[n..];
      hide Words, WordEnd, AllSpace;
      TrailingSpace(rest, post);
      TrailingAfterWord(w, rest, post);
      assert s == w + rest;
    }
  }

  lemma ThenSpace(w: string, s: string)
    requires IsWord(w)
    ensures Words(w + (" " + s)) == [w] + Words(s)
  {
    WordThen(w, " " + s);
    LeadingSpace(" ", s);
  }

  /** Splitting what was joined gives the same words back. */
  lemma {:induction false} WordsOfJoin(words: seq<string>)
    requires forall w :: w in words ==> IsWord(w)
    ensures Words(Join(words)) == words
  {
    if |words| == 1 {
      WordThen(words[0], "");
      assert words[0] + "" == words[0];
    } else if words != [] {
      var rest := Join(words[1..]);
      assert Join(words) == words[0] + (" " + rest);
      assert words[0] in words;
      hide Words, Join, IsWord;
      WordsOfJoin(words[1..]);
      ThenSpace(words[0], rest);
    }
  }

  /** Normalising whitespace keeps the words. */
  lemma Normalising(s: string)
    ensures Words(Join(Words(s))) == Words(s)
  {
    WordsAreWords(s);
    WordsOfJoin(Words(s));
  }

  // ---------- Trim ----------

  /** `t` is `s` with the whitespace at both ends removed and nothing else. */
  ghost predicate IsTrimmed(s: string, t: string) {
    exists b, e :: 0 <= b <= e <= |s| && t == s[b..e] && AllSpace(s[..b]) && AllSpace(s[e..])
      && (t != "" ==> !IsSpace(t[0]) && !IsSpace(t[|t| - 1]))
  }

  method Trim(input: string) returns (trimmed: string)
    ensures IsTrimmed(input, trimmed)
  {
    var begin := 0;
    while begin < |input| && IsSpace(input[begin])
      invariant begin <= |input| && AllSpace(input[..begin])
    {
      begin := begin + 1;
    }
    var end := |input|;
    while end > begin && IsSpace(input[end - 1])
      invariant begin <= end <= |input| && AllSpace(input[end..])
    {
      end := end - 1;
    }
    return input[begin..end];
  }

  lemma SpaceAround(s: string, b: nat, e: nat)
    requires b <= e <= |s| && AllSpace(s[..b]) && AllSpace(s[e..])
    ensures Words(s[b..e]) == Words(s)
  {
    hide Words, AllSpace;
    TrailingSpace(s[b..e], s[e..]);
    assert s[b..e] + s[e..] == s[b..];
    LeadingSpace(s[..b], s[b..]);
    assert s[..b] + s[b..] == s;
  }

  /** Trimming never changes the words, and what is left is empty only if there were none. */
  lemma TrimKeepsWords(s: string, t: string)
    requires IsTrimmed(s, t)
    ensures Words(t) == Words(s)
    ensures t == "" <==> Words(s) == []
  {
    var b, e :| 0 <= b <= e <= |s| && t == s[b..e] && AllSpace(s[..b]) && AllSpace(s[e..])
      && (t != "" ==> !IsSpace(t[0]) && !IsSpace(t[|t| - 1]));
    SpaceAround(s, b, e);
    NoWordsIffAllSpace(t);
  }

  // ---------- The six separators ----------

  /** Space, tab, newline, vertical tab, form feed and carriage return. */
  const BLANKS: string := [32 as char, 9 as char, 10 as char, 11 as char, 12 as char, 13 as char]

  predicate AllBlank(s: string) {
    forall i | 0 <= i < |s| :: s[i] in BLANKS
  }

  predicate NoBlank(s: string) {
    forall i | 0 <= i < |s| :: s[i] !in BLANKS
  }

  lemma SpaceIffBlank(c: char)
    ensures IsSpace(c) <==> c in BLANKS
  {
    assert BLANKS[0] == ' ' && BLANKS[1] == '\t' && BLANKS[2] == '\n' && BLANKS[5] == '\r';
    assert IsSpace(c) ==> c in [BLANKS[0], BLANKS[1], BLANKS[2], BLANKS[3], BLANKS[4], BLANKS[5]];
  }

  lemma BlankMeansSpace(s: string)
    ensures AllSpace(s) <==> AllBlank(s)
    ensures IsWord(s) <==> s != "" && NoBlank(s)
  {
    forall c: char ensures IsSpace(c) <==> c in BLANKS {
      SpaceIffBlank(c);
    }
    hide IsSpace;
  }

  /** Any run of the six characters separates two words, and text with none of them is one. */
  lemma BlanksSeparate(w1: string, blanks: string, w2: string)
    requires w1 != "" && NoBlank(w1) && w2 != "" && NoBlank(w2)
    requires blanks != "" && AllBlank(blanks)
    ensures Words(w1) == [w1] && Words(w1 + (blanks + w2)) == [w1, w2]
  {
    BlankMeansSpace(w1);
    BlankMeansSpace(w2);
    BlankMeansSpace(blanks);
    WordAlone(w1);
    WordAlone(w2);
    LeadingSpace(blanks, w2);
    WordThen(w1, blanks + w2);
  }

  lemma WordAlone(w: string)
    requires IsWord(w)
    ensures Words(w) == [w]
  {
    WordThen(w, "");
    assert w + "" == w;
  }

  /** The whitespace ends before `b` and starts again at `e`. */
  predicate IsCore(s: string, b: nat, e: nat) {
    && b <= e <= |s| && (forall i | 0 <= i < |s| :: i < b || e <= i ==> IsSpace(s[i]))
    && (b < e ==> !IsSpace(s[b]) && !IsSpace(s[e - 1]))
  }

  lemma OneCore(s: string, b: nat, e: nat, b': nat, e': nat)
    requires IsCore(s, b, e) && IsCore(s, b', e')
    ensures s[b..e] == s[b'..e']
  {
    hide IsSpace;
  }

  lemma TrimmedIsCore(s: string, t: string) returns (b: nat, e: nat)
    requires IsTrimmed(s, t)
    ensures IsCore(s, b, e) && t == s[b..e]
  {
    hide IsSpace;
    b, e :| 0 <= b <= e <= |s| && t == s[b..e] && AllSpace(s[..b]) && AllSpace(s[e..])
      && (t != "" ==> !IsSpace(t[0]) && !IsSpace(t[|t| - 1]));
    forall i | 0 <= i < b ensures IsSpace(s[i]) {
      assert IsSpace(s[..b][i]);
    }
    forall i | e <= i < |s| ensures IsSpace(s[i]) {
      assert IsSpace(s[e..][i - e]);
    }
  }

  lemma BetweenBlanks(before: string, t: string, after: string)
    requires AllSpace(before) && AllSpace(after) && (t != "" ==> !IsSpace(t[0]) && !IsSpace(t[|t| - 1]))
    ensures IsCore(before + t + after, |before|, |before + t|)
  {
    hide IsSpace;
    var s := before + t + after;
    forall i | |before + t| <= i < |s| ensures IsSpace(s[i]) {
      assert s[i] == after[i - |before + t|];
    }
  }

  /** Trimming removes the six characters at both ends, and nothing from the first other character
      to the last. */
  lemma TrimRemovesBlanks(before: string, t: string, after: string, trimmed: string)
    requires AllBlank(before) && AllBlank(after)
    requires t != "" ==> t[0] !in BLANKS && t[|t| - 1] !in BLANKS
    requires IsTrimmed(before + t + after, trimmed)
    ensures trimmed == t
  {
    BlankMeansSpace(before);
    BlankMeansSpace(after);
    if t != "" {
      SpaceIffBlank(t[0]);
      SpaceIffBlank(t[|t| - 1]);
    }
    hide IsSpace, IsTrimmed, AllSpace, AllBlank;
    var s := before + t + after;
    BetweenBlanks(before, t, after);
    var b, e := TrimmedIsCore(s, trimmed);
    OneCore(s, |before|, |before + t|, b, e);
    assert s[|before|..|before + t|] == t;
  }

  // ---------- Tokens as views ----------

  /** A range of the text, as a token view holds it. */
  datatype View = View(begin: nat, end: nat)

  /** The range is a maximal run without whitespace. */
  predicate IsToken(s: string, v: View) {
    && v.begin < v.end <= |s|
    && (forall i | v.begin <= i < v.end :: !IsSpace(s[i]))
    && (v.begin == 0 || IsSpace(s[v.begin - 1]))
    && (v.end == |s| || IsSpace(s[v.end]))
  }

  function Text(s: string, v: View): string {
    if v.begin <= v.end <= |s| then s[v.begin..v.end] else ""
  }

  function Texts(s: string, views: seq<View>): (texts: seq<string>)
    ensures |texts| == |views|
  {
    if views == [] then [] else Texts(s, views[..|views| - 1]) + [Text(s, views[|views| - 1])]
  }

  /** The tokens of `s` that end by `index`, in order. */
  ghost predicate TokensBefore(s: string, tokens: seq<View>, index: nat) {
    && (forall v :: v in tokens <==> IsToken(s, v) && v.end <= index)
    && (forall i, j | 0 <= i < j < |tokens| :: tokens[i].end < tokens[j].begin)
  }

  /** `index` is the end of a token, or an end of the text. */
  predicate Between(s: string, index: nat) {
    index <= |s| && (index == 0 || index == |s| || IsSpace(s[index]))
  }

  /** A gap of whitespace and a run after it add that run, if there is one, and no other token. */
  lemma TokensUpTo(s: string, tokens: seq<View>, start: nat, begin: nat, end: nat)
    requires TokensBefore(s, tokens, start) && Between(s, start) && start < |s|
    requires start <= begin <= end && Between(s, end)
    requires forall i | start <= i < begin :: IsSpace(s[i])
    requires forall i | begin <= i < end :: !IsSpace(s[i])
    requires begin == start ==> start == 0
    ensures begin < end ==> IsToken(s, View(begin, end)) && TokensBefore(s, tokens + [View(begin, end)], end)
    ensures begin == end ==> TokensBefore(s, tokens, end)
  {
    assert start < begin ==> IsSpace(s[begin - 1]);
    forall v | IsToken(s, v) && start < v.end <= end
      ensures v == View(begin, end)
    {
      assert !IsSpace(s[v.end - 1]);
      assert v.end - 1 >= begin && v.begin >= begin;
    }
    forall v | v in tokens ensures v.end < begin || v.end == start == 0 {
      assert !IsSpace(s[v.end - 1]);
    }
  }

  /** What the scan has established when it has read up to `index`. */
  ghost predicate Scanned(s: string, tokens: seq<View>, index: nat)
    requires index <= |s|
  {
    TokensBefore(s, tokens, index) && Texts(s, tokens) + Words(s[index..]) == Words(s)
  }

  lemma TextsSnoc(s: string, tokens: seq<View>, v: View)
    ensures Texts(s, tokens + [v]) == Texts(s, tokens) + [Text(s, v)]
  {
    assert (tokens + [v])[..|tokens|] == tokens;
  }

  lemma SpaceRun(s: string, start: nat, end: nat)
    requires start <= end <= |s| && forall i | start <= i < end :: IsSpace(s[i])
    ensures Words(s[start..]) == Words(s[end..])
  {
    assert s[start..] == s[start..end] + s[end..];
    LeadingSpace(s[start..end], s[end..]);
  }

  lemma WordRun(s: string, begin: nat, end: nat)
    requires IsToken(s, View(begin, end))
    ensures Words(s[begin..]) == [Text(s, View(begin, end))] + Words(s[end..])
  {
    assert s[begin..] == s[begin..end] + s[end..];
    WordThen(s[begin..end], s[end..]);
  }

  lemma Regroup(a: seq<string>, b: seq<string>, c: seq<string>)
    ensures a + b + c == a + (b + c)
  {
  }

  /** One turn of the outer loop. */
  lemma ScanOne(s: string, tokens: seq<View>, start: nat, begin: nat, end: nat)
    requires start < |s| && Scanned(s, tokens, start) && Between(s, start)
    requires start <= begin <= end && Between(s, end)
    requires forall i | start <= i < begin :: IsSpace(s[i])
    requires forall i | begin <= i < end :: !IsSpace(s[i])
    requires begin == start ==> start == 0
    ensures begin < end ==> Scanned(s, tokens + [View(begin, end)], end)
    ensures begin == end ==> Scanned(s, tokens, end)
  {
    TokensUpTo(s, tokens, start, begin, end);
    SpaceRun(s, start, begin);
    hide Words, Texts, Text, TokensBefore, IsToken;
    if begin < end {
      var v := View(begin, end);
      WordRun(s, begin, end);
      TextsSnoc(s, tokens, v);
      Regroup(Texts(s, tokens), [Text(s, v)], Words(s[end..]));
    }
  }

  lemma ScanStarts(s: string)
    ensures Scanned(s, [], 0)
  {
    assert s[0..] == s;
  }

  lemma ScanEnds(s: string, tokens: seq<View>)
    requires Scanned(s, tokens, |s|)
    ensures TokensBefore(s, tokens, |s|) && Texts(s, tokens) == Words(s)
  {
    assert Words(s[|s|..]) == [];
  }

  /** Finds every maximal run without whitespace, once each, from left to right. */
  method SplitWhitespaceView(input: string) returns (tokens: seq<View>)
    ensures TokensBefore(input, tokens, |input|)
    ensures Texts(input, tokens) == Words(input)
  {
    hide Scanned, TokensBefore, Texts, Words;
    tokens := [];
    var index := 0;
    ScanStarts(input);
    while index < |input|
      invariant Between(input, index) && Scanned(input, tokens, index)
    {
      ghost var start := index;
      while index < |input| && IsSpace(input[index])
        invariant start <= index <= |input|
        invariant forall i | start <= i < index :: IsSpace(input[i])
      {
        index := index + 1;
      }
      var begin := index;
      while index < |input| && !IsSpace(input[index])
        invariant begin <= index <= |input|
        invariant forall i | begin <= i < index :: !IsSpace(input[i])
      {
        index := index + 1;
      }
      ScanOne(input, tokens, start, begin, index);
      if begin < index {
        tokens := tokens + [View(begin, index)];
      }
    }
    ScanEnds(input, tokens);
  }
}
