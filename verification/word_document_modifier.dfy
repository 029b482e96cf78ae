/** Maximis.Toolkit/Office/WordDocumentModifierBase.cs: text replacements
    applied to the XML of a Word document. Each replacement text is escaped
    for XML ampersands and, unless its carriage-return behaviour is Ignore,
    has its line feeds turned into Word line or paragraph breaks. Reading and
    writing the document package (PerformOperation) is left to subclasses
    and is not part of this model. */
module WordDocumentModifier {
  import opened Wrappers
  import opened Text

  /** The error that String.Replace throws for an empty text to replace. */
  const EmptyOldValue := "ArgumentException: String cannot be of zero length."

  datatype CarriageReturnBehaviour = Ignore | LineBreak | ParagraphBreak

  /** WordDocumentModifierReplacement. */
  datatype Replacement = Replacement(Behaviour: CarriageReturnBehaviour, OriginalText: string, ReplacementText: string)

  const CarriageReturn: char := '\r'
  const LineFeed: char := '\n'

  /** The XML ampersand escape: "&" becomes "&amp;". */
  function EscapeAmpersands(text: string): string {
    ReplaceAll(text, "&", "&amp;")
  }

  /** The text that replaces each occurrence of the original text. */
  function PreparedText(replacement: Replacement): string {
    var escaped := EscapeAmpersands(replacement.ReplacementText);
    if replacement.Behaviour == Ignore then escaped
    else
      var noReturns := ReplaceAll(escaped, [CarriageReturn], "");
      if replacement.Behaviour == LineBreak then ReplaceAll(noReturns, [LineFeed], "<w:br/>")
      else "<w:p>" + ReplaceAll(noReturns, [LineFeed], "</w:p><w:p>") + "</w:p>"
  }

  /** The document after the replacements, applied in list order; an empty
      original text makes String.Replace throw ArgumentException. */
  function ApplyAll(documentXml: string, replacements: seq<Replacement>): Result<string>
    decreases |replacements|
  {
    if replacements == [] then Success(documentXml)
    else if replacements[0].OriginalText == [] then Failure(EmptyOldValue)
    else ApplyAll(ReplaceAll(documentXml, replacements[0].OriginalText, PreparedText(replacements[0])), replacements[1..])
  }

  /** The replacing part of WordDocumentModifierBase. */
  class Modifier {
    var Replacements: Option<seq<Replacement>>

    constructor ()
      ensures Replacements == None
    {
      Replacements := None;
    }

    /** AddReplacement: creates the list when there is none and appends a
        replacement with the default behaviour, Ignore. */
    method AddReplacement(originalText: string, replacement: string)
      modifies this
      ensures Replacements == Some(old(Replacements).GetOr([]) + [Replacement(Ignore, originalText, replacement)])
    {
      if Replacements == None {
        Replacements := Some([]);
      }
      Replacements := Some(Replacements.value + [Replacement(Ignore, originalText, replacement)]);
    }

    /** PerformOperationWorker: no list leaves the document as it is. */
    method PerformOperationWorker(documentXml: string) returns (r: Result<string>)
      ensures r == ApplyAll(documentXml, Replacements.GetOr([]))
      ensures Replacements == None ==> r == Success(documentXml)
    {
      var result := documentXml;
      if Replacements != None {
        var replacements := Replacements.value;
        var i := 0;
        while i < |replacements|
          invariant 0 <= i <= |replacements|
          invariant ApplyAll(result, replacements[i..]) == ApplyAll(documentXml, replacements)
        {
          var repText := EscapeAmpersands(replacements[i].ReplacementText);
          if replacements[i].Behaviour != Ignore {
            repText := ReplaceAll(repText, [CarriageReturn], "");
            match replacements[i].Behaviour {
              case LineBreak =>
                repText := ReplaceAll(repText, [LineFeed], "<w:br/>");
              case ParagraphBreak =>
                repText := "<w:p>" + ReplaceAll(repText, [LineFeed], "</w:p><w:p>") + "</w:p>";
            }
          }
          assert repText == PreparedText(replacements[i]);
          if replacements[i].OriginalText == [] {
            return Failure(EmptyOldValue);
          }
          assert replacements[i..][1..] == replacements[i + 1..];
          result := ReplaceAll(result, replacements[i].OriginalText, repText);
          i := i + 1;
        }
      }
      return Success(result);
    }
  }

  // ------------------------------------------------------------ Properties

  /** Unescaping "&amp;" gives the replacement text back. */
  lemma {:induction false} EscapeAmpersandsRoundTrip(text: string)
    ensures ReplaceAll(EscapeAmpersands(text), "&amp;", "&") == text
  {
    ReplaceSingleChar(text, '&', "&amp;");
    UnescapeEscaped(text);
  }

  lemma {:induction false} UnescapeEscaped(text: string)
    ensures ReplaceAll(ReplaceChar(text, '&', "&amp;"), "&amp;", "&") == text
  {
    if text != [] {
      var rest := ReplaceChar(text[1..], '&', "&amp;");
      UnescapeEscaped(text[1..]);
      if text[0] == '&' {
        assert ReplaceChar(text, '&', "&amp;") == "&amp;" + rest;
        assert ("&amp;" + rest)[..5] == "&amp;" && ("&amp;" + rest)[5..] == rest;
        assert text == "&" + text[1..];
      } else {
        var s := [text[0]] + rest;
        assert ReplaceChar(text, '&', "&amp;") == s;
        if |s| >= 5 {
          assert s[..5] != "&amp;" by {
            assert s[0] == text[0];
          }
        }
        assert s[1..] == rest;
        assert text == [text[0]] + text[1..];
      }
    }
  }

  /** Unless the behaviour is Ignore, the prepared text holds no carriage
      return and no line feed. */
  lemma LineBreaksReplaced(replacement: Replacement)
    requires replacement.Behaviour != Ignore
    ensures CarriageReturn !in PreparedText(replacement) && LineFeed !in PreparedText(replacement)
  {
    var escaped := EscapeAmpersands(replacement.ReplacementText);
    ReplaceSingleChar(escaped, CarriageReturn, "");
    var noReturns := ReplaceChar(escaped, CarriageReturn, "");
    if replacement.Behaviour == LineBreak {
      ReplaceSingleChar(noReturns, LineFeed, "<w:br/>");
    } else {
      ReplaceSingleChar(noReturns, LineFeed, "</w:p><w:p>");
    }
  }

  /** A paragraph-break replacement is one or more whole paragraphs: it
      opens with <w:p> and closes with </w:p>. */
  lemma ParagraphBreakWraps(replacement: Replacement)
    requires replacement.Behaviour == ParagraphBreak
    ensures var t := PreparedText(replacement);
      |t| >= 11 && t[..5] == "<w:p>" && t[|t| - 6..] == "</w:p>"
  {
  }

  /** An Ignore replacement keeps the replacement text, line breaks
      included, up to the ampersand escape. */
  lemma IgnoreKeepsText(replacement: Replacement)
    requires replacement.Behaviour == Ignore
    ensures ReplaceAll(PreparedText(replacement), "&amp;", "&") == replacement.ReplacementText
  {
    EscapeAmpersandsRoundTrip(replacement.ReplacementText);
  }

  /** Applying a list and then another is applying their concatenation. */
  lemma {:induction false} ApplyAllAppend(documentXml: string, first: seq<Replacement>, second: seq<Replacement>)
    ensures ApplyAll(documentXml, first + second)
         == (match ApplyAll(documentXml, first)
             case Success(d) => ApplyAll(d, second)
             case Failure(e) => Failure(e))
    decreases |first|
  {
    if first == [] {
      assert first + second == second;
    } else {
      assert (first + second)[0] == first[0] && (first + second)[1..] == first[1..] + second;
      if first[0].OriginalText != [] {
        ApplyAllAppend(ReplaceAll(documentXml, first[0].OriginalText, PreparedText(first[0])), first[1..], second);
      }
    }
  }

  /** After AddReplacement the worker does what it did before, then replaces
      the new original text by its escaped replacement. */
  lemma AddedReplacementRunsLast(documentXml: string, replacements: seq<Replacement>, originalText: string, replacement: string)
    ensures ApplyAll(documentXml, replacements + [Replacement(Ignore, originalText, replacement)])
         == (match ApplyAll(documentXml, replacements)
             case Success(d) =>
               if originalText == [] then Failure(EmptyOldValue)
               else Success(ReplaceAll(d, originalText, EscapeAmpersands(replacement)))
             case Failure(e) => Failure(e))
  {
    ApplyAllAppend(documentXml, replacements, [Replacement(Ignore, originalText, replacement)]);
  }

  /** A replacement whose original text does not occur leaves the document
      unchanged. */
  lemma AbsentTextUnchanged(documentXml: string, replacement: Replacement)
    requires replacement.OriginalText != [] && !ContainsString(documentXml, replacement.OriginalText)
    ensures ApplyAll(documentXml, [replacement]) == Success(documentXml)
  {
    ReplaceAllAbsent(documentXml, replacement.OriginalText, PreparedText(replacement));
  }
}
