/**
 * The text of the indexed-files manifest: every entry followed by a
 * newline.  Reading it back line by line gives the entries again, as long
 * as no entry holds a newline itself.
 */
module Manifest {
  import opened Strings

  function ManifestText(entries: seq<string>): string {
    if entries == [] then [] else entries[0] + "\n" + ManifestText(entries[1..])
  }

  /** Splits a text at its newlines; a final piece without a newline is kept. */
  function Lines(text: string): seq<string>
    decreases |text|
  {
    if text == [] then []
    else
      var k := FirstIndexOf(text, '\n');
      if k < 0 then [text] else [text[..k]] + Lines(text[k + 1..])
  }

  /** Appending an entry appends that entry and a newline to the text. */
  lemma {:induction false} ManifestTextSnoc(entries: seq<string>, e: string)
    ensures ManifestText(entries + [e]) == ManifestText(entries) + e + "\n"
  {
    if entries != [] {
      ManifestTextSnoc(entries[1..], e);
      assert (entries + [e])[1..] == entries[1..] + [e];
    } else {
      assert ManifestText([e]) == e + "\n" + ManifestText([]);
    }
  }

  /** The manifest reads back as its entries. */
  lemma {:induction false} LinesOfManifest(entries: seq<string>)
    requires forall i :: 0 <= i < |entries| ==> '\n' !in entries[i]
    ensures Lines(ManifestText(entries)) == entries
  {
    if entries != [] {
      var e := entries[0];
      var text := ManifestText(entries);
      assert text == e + "\n" + ManifestText(entries[1..]);
      assert text[|e|] == '\n';
      assert text[..|e|] == e;
      assert FirstIndexOf(text, '\n') == |e|;
      assert text[|e| + 1..] == ManifestText(entries[1..]);
      LinesOfManifest(entries[1..]);
    }
  }
}
