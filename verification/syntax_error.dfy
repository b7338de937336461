/** The preview of a syntax error (ServeRick/Compiling/SyntaxError.cs): the line of the
    source text around the error location, found by scanning backwards and forwards for
    a line break. */
module SyntaxError {

  /** The text of the source and the index of the error's context, which lies within the
      text or just past its end. */
  datatype Location = Location(text: string, index: nat)

  predicate ValidLocation(loc: Location) {
    loc.index <= |loc.text|
  }

  /** Where the backward scan stops: on the nearest line break before the location (the
      break is kept), or at index 0. Index 0 is never inspected, and the character at the
      location itself is not inspected either. */
  ghost predicate PreviewStart(text: string, index: nat, s: nat) {
    && s <= index && s <= |text|
    && (s == 0 || (s < index && s < |text| && text[s] == '\n'))
    && (forall k :: s < k < index && k < |text| ==> text[k] != '\n')
  }

  /** Where the forward scan stops: on the first line break after the location (the
      break is left out), or at the text's end. */
  ghost predicate PreviewEnd(text: string, index: nat, e: nat) {
    && e <= |text|
    && (e == |text| || (index < e && text[e] == '\n'))
    && (forall k :: index < k < e ==> text[k] != '\n')
    && (index < |text| ==> index < e)
  }

  /** `NearPreview`: the substring between the two scans' stops. */
  method NearPreview(loc: Location) returns (r: string, s: nat, e: nat)
    requires ValidLocation(loc)
    ensures PreviewStart(loc.text, loc.index, s) && PreviewEnd(loc.text, loc.index, e)
    ensures s <= e && r == loc.text[s..e]
  {
    var text := loc.text;
    var startIndex: int := loc.index - 1;
    while startIndex > 0
      invariant -1 <= startIndex < loc.index
      invariant forall k :: startIndex < k < loc.index ==> text[k] != '\n'
      decreases startIndex
    {
      if text[startIndex] == '\n' {
        break;
      }
      startIndex := startIndex - 1;
    }
    var endIndex := loc.index + 1;
    while endIndex < |text|
      invariant loc.index < endIndex
      invariant forall k :: loc.index < k < endIndex && k < |text| ==> text[k] != '\n'
      decreases |text| - endIndex
    {
      if text[endIndex] == '\n' {
        break;
      }
      endIndex := endIndex + 1;
    }
    var from := if startIndex < 0 then 0 else startIndex;
    var to := if endIndex > |text| then |text| else endIndex;
    r := text[from..to];
    s, e := from, to;
  }

  /** The two stops are determined by the text and the location: the preview is the one
      line around the location, as far as the scans see. */
  lemma PreviewUnique(text: string, index: nat, s1: nat, s2: nat, e1: nat, e2: nat)
    requires index <= |text|
    requires PreviewStart(text, index, s1) && PreviewStart(text, index, s2)
    requires PreviewEnd(text, index, e1) && PreviewEnd(text, index, e2)
    ensures s1 == s2 && e1 == e2
  {
  }
}
