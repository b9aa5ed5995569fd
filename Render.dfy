/**
 * Rendering one dictionary entry into the result card's markup.
 *
 * The output is described twice: as a sequence of `Line`s (one per markup
 * fragment the source appends, except that the header template is split
 * into `Header`, `Separator` and `Indent`), on which the layout rules are
 * proved, and as the markup string itself, which `RenderEntry` builds by
 * appending fragment after fragment in nested loops, as the source does.
 */
module Render {
  import opened Wrappers
  import opened Api
  import opened Phonetics

  /** At most this many definitions are shown per meaning. */
  const MaxDefinitions: nat := 3
  /** At most this many synonyms (and this many antonyms) are shown per meaning. */
  const MaxRelated: nat := 5
  /** The separator `Array.prototype.join` is called with. */
  const ListSeparator: string := ", "

  /** One fragment of the rendered entry. */
  datatype Line =
    | Header(word: string, phonetic: string, audio: Option<string>)
    | Separator
    | Indent
    | PartOfSpeech(name: string)
    | Numbered(number: nat, text: string)
    | Synonyms(items: seq<string>)
    | Antonyms(items: seq<string>)

  /** `Array.prototype.slice(0, n)`. */
  function Take<T>(s: seq<T>, n: nat): (r: seq<T>)
    ensures |r| == if |s| <= n then |s| else n
    ensures r == s[..|r|]
  {
    if |s| <= n then s else s[..n]
  }

  /** `list && list.length`: the list is present and not empty. */
  predicate HasItems(list: Option<seq<string>>) {
    list.Some? && |list.value| > 0
  }

  // ---------------------------------------------------------------------------
  // The layout, as lines

  /** The definitions `ds`, numbered from 1. */
  function NumberedLines(ds: seq<Definition>): seq<Line> {
    seq(|ds|, i requires 0 <= i < |ds| => Numbered(i + 1, ds[i].definition))
  }

  function SynonymLines(m: Meaning): seq<Line> {
    if HasItems(m.synonyms) then [Synonyms(Take(m.synonyms.value, MaxRelated))] else []
  }

  function AntonymLines(m: Meaning): seq<Line> {
    if HasItems(m.antonyms) then [Antonyms(Take(m.antonyms.value, MaxRelated))] else []
  }

  /** What one meaning contributes. */
  function Block(m: Meaning): seq<Line> {
    [PartOfSpeech(m.partOfSpeech)]
      + NumberedLines(Take(m.definitions, MaxDefinitions))
      + SynonymLines(m) + AntonymLines(m)
      + [Separator]
  }

  /** The blocks of `ms`, in order. */
  function Blocks(ms: seq<Meaning>): seq<Line> {
    if ms == [] then [] else Blocks(ms[..|ms| - 1]) + Block(ms[|ms| - 1])
  }

  function HeaderLines(e: Entry): seq<Line> {
    [Header(e.word, PhoneticText(e.phonetics), AudioUrl(e.phonetics)), Separator, Indent]
  }

  /** The whole rendered entry. */
  function Rendered(e: Entry): seq<Line> {
    HeaderLines(e) + Blocks(e.meanings)
  }

  // ---------------------------------------------------------------------------
  // Properties of the layout

  /**
   * The header shows the word, the first non-empty phonetic text (or
   * nothing), and an audio control exactly when some phonetic has audio,
   * playing the first such audio; a separator follows.
   */
  lemma HeaderShape(e: Entry)
    ensures Rendered(e)[0].Header? && Rendered(e)[0].word == e.word && Rendered(e)[1] == Separator
    ensures Rendered(e)[2] == Indent
    ensures Rendered(e)[0].phonetic == "" <==> forall i :: 0 <= i < |e.phonetics| ==> !HasText(e.phonetics[i])
    ensures Rendered(e)[0].phonetic != "" ==>
      exists i :: 0 <= i < |e.phonetics| && e.phonetics[i].text == Some(Rendered(e)[0].phonetic)
        && forall j :: 0 <= j < i ==> !HasText(e.phonetics[j])
    ensures Rendered(e)[0].audio.Some? <==> exists i :: 0 <= i < |e.phonetics| && HasAudio(e.phonetics[i])
    ensures Rendered(e)[0].audio.Some? ==>
      exists i :: 0 <= i < |e.phonetics| && e.phonetics[i].audio == Rendered(e)[0].audio
        && forall j :: 0 <= j < i ==> !HasAudio(e.phonetics[j])
  {
  }

  /**
   * A meaning's block starts with its part of speech, then shows its first
   * min(3, n) definitions in their own order, numbered 1, 2, ...
   */
  lemma BlockDefinitions(m: Meaning)
    ensures var d := |Take(m.definitions, MaxDefinitions)|;
      && d == (if |m.definitions| < MaxDefinitions then |m.definitions| else MaxDefinitions)
      && |Block(m)| == 2 + d + |SynonymLines(m)| + |AntonymLines(m)|
      && Block(m)[0] == PartOfSpeech(m.partOfSpeech)
      && forall i :: 1 <= i <= d ==> Block(m)[i] == Numbered(i, m.definitions[i - 1].definition)
  {
  }

  lemma NumberedHasNoSeparator(ds: seq<Definition>)
    ensures multiset(NumberedLines(ds))[Separator] == 0
  {
    assert forall l :: l in NumberedLines(ds) ==> l.Numbered?;
  }

  /** A block ends with a separator, and that is its only separator. */
  lemma BlockSeparator(m: Meaning)
    ensures Block(m)[|Block(m)| - 1] == Separator
    ensures multiset(Block(m))[Separator] == 1
  {
    var numbered := NumberedLines(Take(m.definitions, MaxDefinitions));
    NumberedHasNoSeparator(Take(m.definitions, MaxDefinitions));
    var related := SynonymLines(m) + AntonymLines(m);
    assert multiset(related)[Separator] == 0;
    assert Block(m) == [PartOfSpeech(m.partOfSpeech)] + numbered + related + [Separator];
  }

  /**
   * A block has a synonyms line exactly when the meaning has synonyms, and an
   * antonyms line exactly when it has antonyms; they come in that order,
   * just before the separator, and show the first min(5, n) items.
   */
  lemma BlockRelated(m: Meaning)
    ensures (exists l :: l in Block(m) && l.Synonyms?) <==> HasItems(m.synonyms)
    ensures (exists l :: l in Block(m) && l.Antonyms?) <==> HasItems(m.antonyms)
    ensures HasItems(m.synonyms) ==> Block(m)[|Block(m)| - 2 - |AntonymLines(m)|] == Synonyms(Take(m.synonyms.value, MaxRelated))
    ensures HasItems(m.antonyms) ==> Block(m)[|Block(m)| - 2] == Antonyms(Take(m.antonyms.value, MaxRelated))
  {
    var numbered := NumberedLines(Take(m.definitions, MaxDefinitions));
    var b := Block(m);
    assert b == ([PartOfSpeech(m.partOfSpeech)] + numbered) + SynonymLines(m) + (AntonymLines(m) + [Separator]);
    assert forall l :: l in numbered ==> l.Numbered?;
    assert forall l :: l in b && l.Synonyms? ==> l in SynonymLines(m);
    assert forall l :: l in b && l.Antonyms? ==> l in AntonymLines(m);
    if HasItems(m.synonyms) {
      assert b[|b| - 2 - |AntonymLines(m)|] in b;
    }
    if HasItems(m.antonyms) {
      assert b[|b| - 2] in b;
    }
  }

  /** Blocks of a prefix of the meanings are a prefix of all the blocks. */
  lemma {:induction false} BlocksPrefix(ms: seq<Meaning>, k: nat)
    requires k <= |ms|
    ensures Blocks(ms[..k]) <= Blocks(ms)
    decreases |ms|
  {
    if k < |ms| {
      assert ms[..|ms| - 1][..k] == ms[..k];
      BlocksPrefix(ms[..|ms| - 1], k);
    } else {
      assert ms[..k] == ms;
    }
  }

  /** The meanings are rendered in input order: meaning k's block follows those of meanings 0..k-1. */
  lemma BlocksInOrder(ms: seq<Meaning>, k: nat)
    requires k < |ms|
    ensures var start := |Blocks(ms[..k])|;
      start + |Block(ms[k])| <= |Blocks(ms)| && Blocks(ms)[start..start + |Block(ms[k])|] == Block(ms[k])
  {
    assert ms[..k + 1][..k] == ms[..k];
    BlocksPrefix(ms, k + 1);
  }

  /** Each meaning ends with exactly one separator. */
  lemma {:induction false} BlocksSeparators(ms: seq<Meaning>)
    ensures multiset(Blocks(ms))[Separator] == |ms|
  {
    if ms != [] {
      BlocksSeparators(ms[..|ms| - 1]);
      BlockSeparator(ms[|ms| - 1]);
    }
  }

  /** The rendered entry has one separator under the header and one per meaning. */
  lemma SeparatorCount(e: Entry)
    ensures multiset(Rendered(e))[Separator] == 1 + |e.meanings|
  {
    BlocksSeparators(e.meanings);
  }

  // ---------------------------------------------------------------------------
  // Joining a list

  /** `Array.prototype.join(", ")`. */
  function Join(items: seq<string>): string {
    if |items| == 0 then ""
    else if |items| == 1 then items[0]
    else items[0] + ListSeparator + Join(items[1..])
  }

  /** A joined list is empty for no items, and otherwise starts with the first item and ends with the last. */
  lemma {:induction false} JoinEnds(items: seq<string>)
    ensures items == [] ==> Join(items) == ""
    ensures items != [] ==> items[0] <= Join(items)
    ensures items != [] ==> var r, last := Join(items), items[|items| - 1];
      |last| <= |r| && r[|r| - |last|..] == last
  {
    if |items| > 1 {
      JoinEnds(items[1..]);
      var rest := Join(items[1..]);
      var r := items[0] + ListSeparator + rest;
      assert r[|r| - |rest|..] == rest;
    }
  }

  /** The position of the first `c` in `s`. */
  function IndexOf(s: string, c: char): (r: nat)
    requires c in s
    ensures r < |s| && s[r] == c && c !in s[..r]
  {
    if s[0] == c then 0 else 1 + IndexOf(s[1..], c)
  }

  function DropSpace(s: string): string {
    if |s| > 0 && s[0] == ' ' then s[1..] else s
  }

  /** Reads a joined list back: cut at every comma and drop the space after it. */
  function Split(s: string): seq<string>
    decreases |s|
  {
    if ',' !in s then [s]
    else
      var i := IndexOf(s, ',');
      [s[..i]] + Split(DropSpace(s[i + 1..]))
  }

  /** In `x + t`, where `t` starts with `c` and `x` has none, the first `c` is at `|x|`. */
  lemma {:induction false} IndexOfAfter(x: string, t: string, c: char)
    requires c !in x && |t| > 0 && t[0] == c
    ensures c in x + t && IndexOf(x + t, c) == |x|
  {
    if x == [] {
      assert x + t == t;
    } else {
      assert (x + t)[1..] == x[1..] + t;
      IndexOfAfter(x[1..], t, c);
    }
  }

  /** The first comma of `x + ", " + rest` is the separator, when `x` has none. */
  lemma SplitAtSeparator(x: string, rest: string)
    requires ',' !in x
    ensures var s := x + ListSeparator + rest;
      ',' in s && IndexOf(s, ',') == |x| && s[..|x|] == x && DropSpace(s[|x| + 1..]) == rest
  {
    var s := x + ListSeparator + rest;
    assert s == x + (ListSeparator + rest);
    IndexOfAfter(x, ListSeparator + rest, ',');
    assert s[..|x|] == x;
    assert s[|x| + 1..] == " " + rest;
  }

  /**
   * A joined list lists exactly its items, in order: when no item contains a
   * comma, cutting the joined text at its commas gives the items back.
   */
  lemma {:induction false} SplitJoin(items: seq<string>)
    requires |items| > 0
    requires forall k :: 0 <= k < |items| ==> ',' !in items[k]
    ensures Split(Join(items)) == items
  {
    if |items| == 1 {
      assert Join(items) == items[0];
    } else {
      var x, rest := items[0], Join(items[1..]);
      var s := x + ListSeparator + rest;
      assert Join(items) == s;
      SplitAtSeparator(x, rest);
      assert Split(s) == [x] + Split(rest);
      SplitJoin(items[1..]);
      assert items == [x] + items[1..];
    }
  }

  // ---------------------------------------------------------------------------
  // The markup

  /** The decimal digits of `n`, as `${n}` shows it. */
  function Decimal(n: nat): (s: string)
    ensures |s| > 0
    ensures forall i :: 0 <= i < |s| ==> '0' <= s[i] <= '9'
    ensures n < 10 ==> s == ['0' + n as char]
  {
    if n < 10 then ['0' + n as char] else Decimal(n / 10) + ['0' + (n % 10) as char]
  }

  function AudioMarkup(url: string): string {
    "<audio class=\"pronunciation-audio\" controls src=\"" + url + "\" aria-label=\"Pronunciation audio\"></audio>"
  }

  /** The heading: word, phonetic, and the audio control when there is audio. */
  function HeaderMarkup(word: string, phonetic: string, audio: Option<string>): string {
    "\n        <h3>\n          " + word + " \n          <small>" + phonetic + "</small>\n          "
    + (if audio.Some? then AudioMarkup(audio.value) else "")
    + "\n        </h3>\n        "
  }

  const SeparatorMarkup: string := "<hr>"

  /** The newline and indentation that close the header template after its `<hr>`. */
  const IndentMarkup: string := "\n      "

  function PartOfSpeechMarkup(name: string): string {
    "<p><b>" + name + "</b></p>"
  }

  function DefinitionMarkup(n: nat, text: string): string {
    "<p>" + Decimal(n) + ". " + text + "</p>"
  }

  function SynonymsMarkup(items: seq<string>): string {
    "<p><b>Synonyms:</b> " + Join(items) + "</p>"
  }

  function AntonymsMarkup(items: seq<string>): string {
    "<p><b>Antonyms:</b> " + Join(items) + "</p>"
  }

  function LineMarkup(l: Line): string {
    match l
    case Header(word, phonetic, audio) => HeaderMarkup(word, phonetic, audio)
    case Separator => SeparatorMarkup
    case Indent => IndentMarkup
    case PartOfSpeech(name) => PartOfSpeechMarkup(name)
    case Numbered(n, text) => DefinitionMarkup(n, text)
    case Synonyms(items) => SynonymsMarkup(items)
    case Antonyms(items) => AntonymsMarkup(items)
  }

  /** The strings of `ss`, one after another. */
  function Concat<T>(ss: seq<seq<T>>): seq<T> {
    if ss == [] then [] else Concat(ss[..|ss| - 1]) + ss[|ss| - 1]
  }

  lemma {:induction false} ConcatAppend<T>(a: seq<seq<T>>, b: seq<seq<T>>)
    ensures Concat(a + b) == Concat(a) + Concat(b)
    decreases |b|
  {
    if b == [] {
      assert a + b == a;
    } else {
      var b' := b[..|b| - 1];
      assert (a + b)[..|a + b| - 1] == a + b';
      ConcatAppend(a, b');
    }
  }

  lemma ConcatSingle<T>(x: seq<T>)
    ensures Concat([x]) == x
  {
    assert [x][..0] == [];
  }

  /** The markup fragment of each line. */
  function Fragments(ls: seq<Line>): (fs: seq<string>)
    ensures |fs| == |ls|
    ensures forall i :: 0 <= i < |ls| ==> fs[i] == LineMarkup(ls[i])
  {
    seq(|ls|, i requires 0 <= i < |ls| => LineMarkup(ls[i]))
  }

  /** The markup of `ls`, fragment after fragment. */
  function Markup(ls: seq<Line>): string {
    Concat(Fragments(ls))
  }

  lemma MarkupAppend(ls: seq<Line>, l: Line)
    ensures Markup(ls + [l]) == Markup(ls) + LineMarkup(l)
  {
    assert Fragments(ls + [l]) == Fragments(ls) + [LineMarkup(l)];
    ConcatAppend(Fragments(ls), [LineMarkup(l)]);
    assert Concat([LineMarkup(l)]) == LineMarkup(l) by {
      assert [LineMarkup(l)][..0] == [];
    }
  }

  lemma AppendNumbered(ls: seq<Line>, n: nat, text: string)
    ensures Markup(ls + [Numbered(n, text)]) == Markup(ls) + DefinitionMarkup(n, text)
  {
    MarkupAppend(ls, Numbered(n, text));
  }

  lemma AppendSynonyms(ls: seq<Line>, items: seq<string>)
    ensures Markup(ls + [Synonyms(items)]) == Markup(ls) + SynonymsMarkup(items)
  {
    MarkupAppend(ls, Synonyms(items));
  }

  lemma AppendAntonyms(ls: seq<Line>, items: seq<string>)
    ensures Markup(ls + [Antonyms(items)]) == Markup(ls) + AntonymsMarkup(items)
  {
    MarkupAppend(ls, Antonyms(items));
  }

  lemma AppendSeparator(ls: seq<Line>)
    ensures Markup(ls + [Separator]) == Markup(ls) + SeparatorMarkup
  {
    MarkupAppend(ls, Separator);
  }

  lemma AppendIndent(ls: seq<Line>)
    ensures Markup(ls + [Indent]) == Markup(ls) + IndentMarkup
  {
    MarkupAppend(ls, Indent);
  }

  lemma MarkupConcat(a: seq<Line>, b: seq<Line>)
    ensures Markup(a + b) == Markup(a) + Markup(b)
  {
    assert Fragments(a + b) == Fragments(a) + Fragments(b);
    ConcatAppend(Fragments(a), Fragments(b));
  }

  /**
   * A synonyms or antonyms line shows the first min(5, n) items, each one
   * readable back from the markup when no item contains a comma.
   */
  lemma RelatedLineLists(m: Meaning, l: Line)
    requires l in Block(m) && (l.Synonyms? || l.Antonyms?)
    requires forall k :: 0 <= k < |l.items| ==> ',' !in l.items[k]
    ensures var all := if l.Synonyms? then m.synonyms.value else m.antonyms.value;
      && 0 < |l.items| == (if |all| < MaxRelated then |all| else MaxRelated)
      && l.items == all[..|l.items|]
      && Split(Join(l.items)) == l.items
  {
    assert l in SynonymLines(m) || l in AntonymLines(m) by {
      var numbered := NumberedLines(Take(m.definitions, MaxDefinitions));
      assert Block(m) == ([PartOfSpeech(m.partOfSpeech)] + numbered) + SynonymLines(m) + (AntonymLines(m) + [Separator]);
      assert forall x :: x in numbered ==> x.Numbered?;
    }
    SplitJoin(l.items);
  }

  lemma NumberedSnoc(ds: seq<Definition>, i: nat)
    requires i < |ds|
    ensures NumberedLines(ds[..i + 1]) == NumberedLines(ds[..i]) + [Numbered(i + 1, ds[i].definition)]
  {
  }

  lemma BlockParts(m: Meaning, head: seq<Line>)
    requires head == [PartOfSpeech(m.partOfSpeech)] + NumberedLines(Take(m.definitions, MaxDefinitions))
    ensures head + SynonymLines(m) + AntonymLines(m) + [Separator] == Block(m)
  {
  }

  /** Closing a block's lines with the separator completes its markup. */
  lemma BlockClosed(m: Meaning, head: seq<Line>, lines: seq<Line>, result: string)
    requires head == [PartOfSpeech(m.partOfSpeech)] + NumberedLines(Take(m.definitions, MaxDefinitions))
    requires lines == head + SynonymLines(m) + AntonymLines(m)
    requires result == Markup(lines)
    ensures result + SeparatorMarkup == Markup(Block(m))
  {
    AppendSeparator(lines);
    BlockParts(m, head);
  }

  /**
   * The markup the body of the source's `meanings.forEach` callback appends
   * for one meaning, built fragment by fragment.
   */
  method RenderMeaning(m: Meaning) returns (result: string)
    ensures result == Markup(Block(m))
  {
    ghost var l := PartOfSpeech(m.partOfSpeech);
    result := PartOfSpeechMarkup(m.partOfSpeech);
    ghost var lines: seq<Line> := [l];
    assert result == Markup(lines) by {
      MarkupAppend([], l);
      assert [] + [l] == lines;
    }

    var defs := Take(m.definitions, MaxDefinitions);
    var i := 0;
    while i < |defs|
      invariant i <= |defs|
      invariant lines == [l] + NumberedLines(defs[..i])
      invariant result == Markup(lines)
    {
      ghost var n := Numbered(i + 1, defs[i].definition);
      AppendNumbered(lines, i + 1, defs[i].definition);
      NumberedSnoc(defs, i);
      result, lines := result + DefinitionMarkup(i + 1, defs[i].definition), lines + [n];
      i := i + 1;
    }
    assert defs[..i] == defs;
    ghost var head := lines;

    if m.synonyms.Some? && |m.synonyms.value| > 0 {
      var syn := Synonyms(Take(m.synonyms.value, MaxRelated));
      AppendSynonyms(lines, syn.items);
      result, lines := result + SynonymsMarkup(syn.items), lines + [syn];
    }
    assert lines == head + SynonymLines(m);
    ghost var withSynonyms := lines;
    if m.antonyms.Some? && |m.antonyms.value| > 0 {
      var ant := Antonyms(Take(m.antonyms.value, MaxRelated));
      AppendAntonyms(lines, ant.items);
      result, lines := result + AntonymsMarkup(ant.items), lines + [ant];
    }
    assert lines == withSynonyms + AntonymLines(m);
    BlockClosed(m, head, lines, result);
    result := result + SeparatorMarkup;
  }

  lemma MarkupSingle(l: Line)
    ensures Markup([l]) == LineMarkup(l)
  {
    assert Fragments([l]) == [LineMarkup(l)];
    ConcatSingle(LineMarkup(l));
  }

  lemma HeaderMarkupLines(e: Entry)
    ensures Markup(HeaderLines(e))
      == HeaderMarkup(e.word, PhoneticText(e.phonetics), AudioUrl(e.phonetics)) + SeparatorMarkup + IndentMarkup
  {
    var h := Header(e.word, PhoneticText(e.phonetics), AudioUrl(e.phonetics));
    MarkupSingle(h);
    AppendSeparator([h]);
    assert [h] + [Separator] == [h, Separator];
    AppendIndent([h, Separator]);
    assert [h, Separator] + [Indent] == HeaderLines(e);
  }

  /** One more meaning renders one more block after the ones before. */
  lemma RenderedStep(e: Entry, k: nat)
    requires k < |e.meanings|
    ensures Markup(HeaderLines(e) + Blocks(e.meanings[..k + 1]))
      == Markup(HeaderLines(e) + Blocks(e.meanings[..k])) + Markup(Block(e.meanings[k]))
  {
    var ms := e.meanings;
    assert ms[..k + 1][..k] == ms[..k];
    assert HeaderLines(e) + Blocks(ms[..k + 1]) == (HeaderLines(e) + Blocks(ms[..k])) + Block(ms[k]);
    MarkupConcat(HeaderLines(e) + Blocks(ms[..k]), Block(ms[k]));
  }

  /** Builds the result card's markup for `e`, as `searchWord` does on an array response. */
  method RenderEntry(e: Entry) returns (output: string)
    ensures output == Markup(Rendered(e))
  {
    var phonetic := PhoneticText(e.phonetics);
    var audioUrl := AudioUrl(e.phonetics);
    output := HeaderMarkup(e.word, phonetic, audioUrl) + SeparatorMarkup + IndentMarkup;
    HeaderMarkupLines(e);

    var meanings := e.meanings;
    var k := 0;
    assert meanings[..k] == [];
    assert HeaderLines(e) + Blocks(meanings[..k]) == HeaderLines(e);
    while k < |meanings|
      invariant k <= |meanings|
      invariant output == Markup(HeaderLines(e) + Blocks(meanings[..k]))
    {
      var block := RenderMeaning(meanings[k]);
      RenderedStep(e, k);
      output := output + block;
      k := k + 1;
    }
    assert meanings[..k] == meanings;
  }
}
