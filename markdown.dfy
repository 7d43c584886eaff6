/** The text `save_markdown` writes: for each chunk, numbered from 1, a
    header line `## Chunk k`, the chunk's text and a blank line. Where the
    file goes is not modelled. */
module Markdown {
  import opened Text

  /** `f"## Chunk {k}\n"` then `f"{chunk}\n\n"`. */
  function Section(k: nat, chunk: string): string {
    "## Chunk " + Decimal(k) + "\n" + chunk + "\n\n"
  }

  /** The sections of `chunks`, numbered from `first`. */
  function Sections(chunks: seq<string>, first: nat): string {
    if chunks == [] then "" else Section(first, chunks[0]) + Sections(chunks[1..], first + 1)
  }

  /** The whole Markdown body: sections numbered 1..M. */
  function Render(chunks: seq<string>): (r: string)
    ensures r == "" <==> chunks == []
  {
    Sections(chunks, 1)
  }

  /** Rendering a concatenation renders each part, the second part's
      numbering continuing where the first stopped. */
  lemma {:induction false} SectionsAppend(a: seq<string>, b: seq<string>, first: nat)
    ensures Sections(a + b, first) == Sections(a, first) + Sections(b, first + |a|)
  {
    if a == [] {
      assert a + b == b;
    } else {
      assert (a + b)[1..] == a[1..] + b;
      SectionsAppend(a[1..], b, first + 1);
    }
  }

  /** Chunk `k` (0-based) is rendered under the header `## Chunk k+1`, after
      the sections of the chunks before it and before those after it. */
  lemma RenderAt(chunks: seq<string>, k: nat)
    requires k < |chunks|
    ensures Render(chunks) ==
      Render(chunks[..k]) + "## Chunk " + Decimal(k + 1) + "\n" + chunks[k] + "\n\n" +
      Sections(chunks[k + 1..], k + 2)
  {
    var rest := [chunks[k]] + chunks[k + 1..];
    assert chunks == chunks[..k] + rest;
    SectionsAppend(chunks[..k], rest, 1);
    assert rest[1..] == chunks[k + 1..];
    assert Sections(rest, k + 1) == Section(k + 1, chunks[k]) + Sections(chunks[k + 1..], k + 2);
    SectionSplice(Render(chunks[..k]), k + 1, chunks[k], Sections(chunks[k + 1..], k + 2));
  }

  /** A section spliced between two texts, written out. */
  lemma SectionSplice(before: string, k: nat, chunk: string, after: string)
    ensures before + (Section(k, chunk) + after) ==
      before + "## Chunk " + Decimal(k) + "\n" + chunk + "\n\n" + after
  {
    var h, d := "## Chunk ", Decimal(k);
    calc {
      before + (Section(k, chunk) + after);
      before + ((((h + d) + "\n") + chunk) + "\n\n") + after;
      (((((before + h) + d) + "\n") + chunk) + "\n\n") + after;
    }
  }

  /** The number in a header reads back as the chunk's 1-based position. */
  lemma HeaderNumber(k: nat)
    ensures AllDigits(Decimal(k + 1)) && ParseDecimal(Decimal(k + 1)) == k + 1
  {
    DecimalRoundTrip(k + 1);
  }

  /** The loop of `save_markdown`, collecting what it writes. */
  method WriteMarkdown(chunks: seq<string>) returns (out: string)
    ensures out == Render(chunks)
  {
    out := "";
    for i := 0 to |chunks|
      invariant out == Render(chunks[..i])
    {
      SectionsAppend(chunks[..i], [chunks[i]], 1);
      assert chunks[..i + 1] == chunks[..i] + [chunks[i]];
      assert Sections([chunks[i]], 1 + i) == Section(i + 1, chunks[i]) by {
        assert [chunks[i]][1..] == [];
      }
      out := out + "## Chunk " + Decimal(i + 1) + "\n";
      out := out + chunks[i] + "\n\n";
    }
    assert chunks[..|chunks|] == chunks;
  }
}
