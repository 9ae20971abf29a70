/** From text to tree: parse a buffer, then read the strings of the tree from it, in any order. */
module XmlReading {
  import opened XmlText
  import opened Decoding
  import opened XmlTree
  import opened XmlParser
  import opened XmlSegments
  import D = XmlDocument
  import S = StrPair
  import P = XmlPrinter
  import XmlRoundTrip
  import XmlNormal

  /** The StrPairs of the tree, one for each segment, in the order of the text. */
  method HandOut(doc: D.XMLDocument, segs: seq<Segment>) returns (pairs: seq<S.StrPair>)
    requires |doc.text| == doc.charBuffer.Length && D.Keeps(doc.Bytes(), doc.text, segs) && Within(segs, 0, |doc.text|)
    ensures |pairs| == |segs| && S.Apart(pairs) && fresh(pairs)
    ensures forall i :: 0 <= i < |pairs| ==>
      pairs[i].Reads(doc.charBuffer) && UpToNul(pairs[i].Text()) == View(doc.text, segs[i])
  {
    hide D.Keeps, Within, Flush, CStr;
    WithinApart(segs, 0, |doc.text|);
    pairs := [];
    for k := 0 to |segs|
      invariant |pairs| == k && fresh(pairs)
      invariant forall i, j :: 0 <= i < j < k ==> pairs[i] != pairs[j]
      invariant forall i :: 0 <= i < k ==>
        && pairs[i].start == segs[i].start && pairs[i].end == segs[i].end
        && pairs[i].Reads(doc.charBuffer) && UpToNul(pairs[i].Text()) == View(doc.text, segs[i])
    {
      D.KeepsAt(doc.Bytes(), doc.text, segs, k);
      var pair := new S.StrPair();
      pair.Set(doc.charBuffer, segs[k].start, segs[k].end, segs[k].mode);
      pairs := pairs + [pair];
    }
  }

  /** Parsing any text and then reading strings of the tree in any order, some of them more than once, gives for each
      the string it has when decoded alone from the text as it was before the parse. */
  method ParseAndRead(xml: string, order: seq<nat>) returns (r: Document, texts: seq<string>)
    ensures r == ParseDocument(xml + [NUL])
    ensures r.Success? && (forall k :: 0 <= k < |order| ==> order[k] < |AllSegments(r.nodes)|) ==>
      |texts| == |order|
      && forall k :: 0 <= k < |order| ==> texts[k] == View(xml + [NUL], AllSegments(r.nodes)[order[k]])
  {
    hide ParseDocument, AllSegments, View;
    var doc := new D.XMLDocument(xml);
    r := doc.Parse();
    texts := [];
    if r.Success? && forall k :: 0 <= k < |order| ==> order[k] < |AllSegments(r.nodes)| {
      SegmentsApart(doc.text);
      var pairs := HandOut(doc, AllSegments(r.nodes));
      texts := S.ReadAll(doc.charBuffer, pairs, order);
    }
  }

  /** Printing any tree compactly and parsing the output gives the tree back if and only if it is Stable; and a
      well-formed one comes back in normal form, without what a parse skips at its start, unless it ends in a text. */
  method PrintAndParse(bom: bool, doc: seq<Node<string>>) returns (r: Document, bom': bool, text: string)
    ensures text == PrintDocument(bom, doc)
    ensures r.Success? && ViewNodes(text + [NUL], r.nodes) == doc && bom' == bom <==> Stable(bom, doc)
    ensures WellFormed(doc) ==>
      var rest := XmlRoundTrip.FromStart(bom, doc);
      if PrintNodes(rest) == "" then r == Error(EmptyDocument)
      else if XmlRoundTrip.EndsInText(rest) then r == Error(ParsingText)
      else r.Success? && ViewNodes(text + [NUL], r.nodes) == NormalNodes(rest)
  {
    hide ParseDocument, PrintNodes, PrintDocument, ViewNodes, NormalNodes, WellFormed, Stable, BomRead;
    hide XmlRoundTrip.FromStart, XmlRoundTrip.EndsInText;
    var printer := new P.XMLPrinter(true);
    printer.PrintDocument(bom, doc);
    text := printer.buffer;
    var parser := new D.XMLDocument(text);
    r := parser.Parse();
    bom' := parser.writeBOM;
    XmlNormal.SurvivesIffStable(bom, doc);
    if WellFormed(doc) { XmlRoundTrip.RoundTrip(bom, doc); }
  }
}
