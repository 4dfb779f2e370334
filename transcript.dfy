/** The downloadable story: a title line, then every log entry in order,
    player entries marked with the player's name (app.py:385-391). */
module Transcript {
  import opened PyText
  import opened Session

  /** The title: `# {name}'s {Genre} Adventure` and a blank line. */
  function Header(name: string, genre: string): string {
    "# " + name + "'s " + Capitalize(genre) + " Adventure\n\n"
  }

  /** One entry as the loop renders it. */
  function RenderEntry(name: string, e: Entry): string {
    match e.role
    case Player => "\n**" + name + " chose:** " + e.text + "\n\n"
    case Narrator => e.text + "\n\n"
  }

  /** Strings written one after another. */
  function Concat(parts: seq<string>): string {
    if parts == [] then "" else Concat(parts[..|parts| - 1]) + parts[|parts| - 1]
  }

  /** Each entry's rendering, in log order. */
  function Pieces(name: string, log: seq<Entry>): (r: seq<string>)
    ensures |r| == |log|
  {
    seq(|log|, i requires 0 <= i < |log| => RenderEntry(name, log[i]))
  }

  /** The entries rendered one after another, in log order. */
  function RenderLog(name: string, log: seq<Entry>): string {
    Concat(Pieces(name, log))
  }

  /** The whole downloadable text. */
  function FullStory(name: string, genre: string, log: seq<Entry>): string {
    Header(name, genre) + RenderLog(name, log)
  }

  /** The loop that accumulates `full_story`. */
  method CompileStory(name: string, genre: string, log: seq<Entry>) returns (fullStory: string)
    ensures fullStory == FullStory(name, genre, log)
  {
    fullStory := "# " + name + "'s " + Capitalize(genre) + " Adventure\n\n";
    for i := 0 to |log|
      invariant fullStory == Header(name, genre) + RenderLog(name, log[..i])
    {
      var role, text := log[i].role, log[i].text;
      ghost var before := fullStory;
      if role == Player {
        fullStory := fullStory + ("\n**" + name + " chose:** " + text + "\n\n");
      } else {
        fullStory := fullStory + (text + "\n\n");
      }
      assert fullStory == before + RenderEntry(name, log[i]);
      RenderPrefixStep(name, log, i);
      ConcatAssoc(Header(name, genre), RenderLog(name, log[..i]), RenderEntry(name, log[i]));
    }
    assert log[..|log|] == log;
  }

  /** One more entry of the log, one more rendered entry of text. */
  lemma RenderPrefixStep(name: string, log: seq<Entry>, i: nat)
    requires i < |log|
    ensures RenderLog(name, log[..i + 1]) == RenderLog(name, log[..i]) + RenderEntry(name, log[i])
  {
    var p := Pieces(name, log[..i + 1]);
    assert p[..|p| - 1] == Pieces(name, log[..i]);
  }

  /** Writing two lists of strings is writing their concatenation. */
  lemma {:induction false} ConcatAppend(p: seq<string>, q: seq<string>)
    decreases |q|
    ensures Concat(p + q) == Concat(p) + Concat(q)
  {
    if q == [] {
      assert p + q == p;
    } else {
      var front := q[..|q| - 1];
      ConcatAppend(p, front);
      assert (p + q)[..|p + q| - 1] == p + front;
      ConcatAssoc(Concat(p), Concat(front), q[|q| - 1]);
    }
  }

  /** Rendering distributes over concatenation of logs. */
  lemma RenderLogAppend(name: string, a: seq<Entry>, b: seq<Entry>)
    ensures RenderLog(name, a + b) == RenderLog(name, a) + RenderLog(name, b)
  {
    assert Pieces(name, a + b) == Pieces(name, a) + Pieces(name, b);
    ConcatAppend(Pieces(name, a), Pieces(name, b));
  }

  /** Appending entries to the log (the conclusion, say) only extends the
      text: what was there before is a prefix of what comes after. */
  lemma StoryExtends(name: string, genre: string, log: seq<Entry>, more: seq<Entry>)
    ensures FullStory(name, genre, log + more) ==
            FullStory(name, genre, log) + RenderLog(name, more)
  {
    RenderLogAppend(name, log, more);
  }

  /** Entry `i` of the log is rendered at the offset reached by the title
      and the entries before it: the text lists the log in order. */
  lemma EntryPlacement(name: string, genre: string, log: seq<Entry>, i: nat)
    requires i < |log|
    ensures var offset := |Header(name, genre)| + |RenderLog(name, log[..i])|;
            var piece := RenderEntry(name, log[i]);
            offset + |piece| <= |FullStory(name, genre, log)| &&
            FullStory(name, genre, log)[offset..offset + |piece|] == piece
  {
    var before, after := log[..i], log[i + 1..];
    assert log == before + [log[i]] + after;
    RenderLogAppend(name, before + [log[i]], after);
    RenderLogAppend(name, before, [log[i]]);
    RenderSingle(name, log[i]);
    var h := Header(name, genre);
    var p := RenderLog(name, before);
    var e := RenderEntry(name, log[i]);
    var q := RenderLog(name, after);
    ConcatAssoc(h, p + e, q);
    ConcatAssoc(h, p, e);
    assert FullStory(name, genre, log) == (h + p) + e + q;
    PieceAt(h + p, e, q);
  }

  /** A log of one entry renders as that entry. */
  lemma RenderSingle(name: string, e: Entry)
    ensures RenderLog(name, [e]) == RenderEntry(name, e)
  {
    var ps := Pieces(name, [e]);
    assert ps == [RenderEntry(name, e)];
    assert ps[..0] == [];
    assert Concat(ps) == Concat([]) + RenderEntry(name, e);
  }

  /** The text does not determine the log: a narrator entry holding a blank
      line renders exactly as two narrator entries, although the logs
      differ. */
  lemma BlankLineSplitsEntry(name: string, genre: string, x: string, y: string)
    ensures [Entry(Narrator, x + "\n\n" + y)] != [Entry(Narrator, x), Entry(Narrator, y)]
    ensures FullStory(name, genre, [Entry(Narrator, x + "\n\n" + y)]) ==
            FullStory(name, genre, [Entry(Narrator, x), Entry(Narrator, y)])
  {
    var one, a, b := Entry(Narrator, x + "\n\n" + y), Entry(Narrator, x), Entry(Narrator, y);
    RenderSingle(name, one);
    RenderSingle(name, a);
    RenderSingle(name, b);
    RenderLogAppend(name, [a], [b]);
    assert [a] + [b] == [a, b];
    ConcatAssoc(x + "\n\n", y, "\n\n");
  }

  /** The middle of `a + e + q`, at offset `|a|`, is `e`. */
  lemma PieceAt(a: string, e: string, q: string)
    ensures (a + e + q)[|a|..|a| + |e|] == e
  {
  }

  /** A text without upper-case letters capitalises to itself with only its
      first character raised. */
  lemma CapitalizeLowercase(s: string)
    requires s != [] && forall k :: 0 <= k < |s| ==> !('A' <= s[k] <= 'Z')
    ensures Capitalize(s) == [Upper(s[0])] + s[1..]
  {
    var r := Capitalize(s);
    forall k | 1 <= k < |s| ensures r[k] == s[k] {
      assert r[k] == Lower(s[k]);
    }
  }

  /** Every genre's title line shows the stored key with its first letter
      raised (so "Science Fiction" is titled "Sci_fi"), not the menu's
      display name. */
  lemma GenreHeader(name: string, g: Genre)
    ensures var key := GenreKey(g);
            key != [] &&
            Header(name, key) == "# " + name + "'s " + ([Upper(key[0])] + key[1..]) + " Adventure\n\n"
  {
    var key := GenreKey(g);
    assert forall k :: 0 <= k < |key| ==> !('A' <= key[k] <= 'Z');
    CapitalizeLowercase(key);
  }
}
