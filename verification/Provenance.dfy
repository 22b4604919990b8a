/** Provenance metadata hidden in a stored message: the worker's encoder and the transcript's decoder. */
module Provenance {
  import opened Text

  const MARKER := "<!--PROVENANCE:"
  const CLOSE := "-->"

  /** What the worker stores. */
  function Encode(reply: string, json: string): string {
    reply + "\n\n" + MARKER + json + CLOSE
  }

  /** What the transcript shows of a message, and the metadata text it hands to the JSON parser. */
  datatype Decoded = Decoded(content: string, metadata: Option<string>)

  function Decode(content: string, outbound: bool): Decoded {
    if outbound && Contains(content, MARKER) then
      ContainsFind(content, MARKER);
      var parts := SplitOn(content, MARKER);
      Decoded(Strip(parts[0]), Some(Strip(SplitOn(parts[1], CLOSE)[0])))
    else Decoded(content, None)
  }

  /** The loop over the messages: each is decoded in place, in order. */
  method DecodeAll(messages: array<Decoded>, outbound: seq<bool>)
    requires |outbound| == messages.Length
    modifies messages
    ensures forall i :: 0 <= i < messages.Length ==> messages[i] == Decode(old(messages[i].content), outbound[i])
    ensures forall i :: 0 <= i < messages.Length && (!outbound[i] || !Contains(old(messages[i].content), MARKER)) ==>
              messages[i].content == old(messages[i].content) && messages[i].metadata == None
  {
    for i := 0 to messages.Length
      invariant forall j :: 0 <= j < i ==> messages[j] == Decode(old(messages[j].content), outbound[j])
      invariant forall j :: i <= j < messages.Length ==> messages[j] == old(messages[j])
    {
      messages[i] := Decode(messages[i].content, outbound[i]);
    }
  }

  lemma ContainsFind(hay: string, needle: string)
    ensures Contains(hay, needle) <==> Find(hay, needle, 0).Some?
  {
    if Find(hay, needle, 0).Some? { assert At(hay, needle, Find(hay, needle, 0).value); }
  }

  /** An occurrence inside a prefix is one in the whole, and the other way round. */
  lemma AtPrefix(a: string, b: string, needle: string, j: nat)
    requires j + |needle| <= |a|
    ensures At(a + b, needle, j) <==> At(a, needle, j)
  {
    assert (a + b)[j..j + |needle|] == a[j..j + |needle|];
  }

  /** The marker does not straddle the blank line before it: its first occurrence in an encoded message whose
      reply does not contain it is the encoder's own. */
  lemma MarkerFirst(reply: string, json: string)
    requires !Contains(reply, MARKER)
    ensures Find(Encode(reply, json), MARKER, 0) == Some(|reply| + 2)
  {
    var s, rest := Encode(reply, json), "\n\n" + MARKER + json + CLOSE;
    assert s == reply + rest;
    forall j: nat | j < |reply| + 2 ensures !At(s, MARKER, j) {
      if j + |MARKER| <= |reply| {
        AtPrefix(reply, rest, MARKER, j);
      } else {
        NotOverBlankLine(reply, json, j);
      }
    }
    assert s[|reply| + 2..|reply| + 2 + |MARKER|] == MARKER;
    FindLeftmost(s, MARKER, |reply| + 2);
  }

  lemma NotOverBlankLine(reply: string, json: string, j: nat)
    requires j < |reply| + 2 && j + |MARKER| > |reply|
    ensures !At(Encode(reply, json), MARKER, j)
  {
    var s := Encode(reply, json);
    var k := if j <= |reply| then |reply| else |reply| + 1;
    assert s[k] == '\n' && j <= k < j + |MARKER|;
    assert forall i :: 0 <= i < |MARKER| ==> MARKER[i] != '\n';
    if At(s, MARKER, j) { AtChar(s, MARKER, j, k - j); }
  }

  /** When the reply contains the marker, the first one lies inside it. */
  lemma MarkerEarly(reply: string, json: string)
    requires Contains(reply, MARKER)
    ensures Find(Encode(reply, json), MARKER, 0) == Find(reply, MARKER, 0)
    ensures Find(reply, MARKER, 0).Some?
  {
    ContainsFind(reply, MARKER);
    var i, rest := Find(reply, MARKER, 0).value, "\n\n" + MARKER + json + CLOSE;
    assert Encode(reply, json) == reply + rest;
    AtPrefix(reply, rest, MARKER, i);
    forall j: nat | j < i ensures !At(reply + rest, MARKER, j) { AtPrefix(reply, rest, MARKER, j); }
    FindLeftmost(reply + rest, MARKER, i);
  }

  /** The decoded text is the stripped reply exactly when the reply does not contain the marker. */
  lemma ReplyExactly(reply: string, json: string)
    ensures Decode(Encode(reply, json), true).content == Strip(reply) <==> !Contains(reply, MARKER)
  {
    var s := Encode(reply, json);
    ContainsFind(s, MARKER);
    if Contains(reply, MARKER) {
      MarkerEarly(reply, json);
      var i := Find(reply, MARKER, 0).value;
      assert SplitOn(s, MARKER)[0] == s[..i] == reply[..i];
      CutShorter(reply, i);
    } else {
      MarkerFirst(reply, json);
      assert SplitOn(s, MARKER)[0] == s[..|reply| + 2] == reply + "\n\n";
      StripTail(reply, "\n\n");
    }
  }

  lemma StripTail(s: string, blank: string)
    requires Blank(blank)
    ensures Strip(s + blank) == Strip(s)
  {
    var left, right := StripSplits(s);
    StripUnique(left, Strip(s), right + blank);
    assert left + Strip(s) + (right + blank) == s + blank;
  }

  /** What is left of a marker strips to less than the whole: the marker is not white space. */
  lemma CutShorter(reply: string, i: nat)
    requires At(reply, MARKER, i)
    ensures Strip(reply[..i]) != Strip(reply)
  {
    var rest := reply[i..];
    assert reply == reply[..i] + rest && reply[i..i + |MARKER|][0] == MARKER[0];
    InkAppend(reply[..i], rest);
    InkStrip(reply);
    InkStrip(reply[..i]);
    assert |Ink(rest)| > 0;
  }

  lemma EncodedTail(reply: string, json: string)
    ensures Encode(reply, json)[|reply| + 2 + |MARKER|..] == json + CLOSE
  {
  }

  /** The decoded metadata text of an encoded message whose reply has no marker. */
  lemma MetadataOf(reply: string, json: string)
    requires !Contains(reply, MARKER)
    ensures Decode(Encode(reply, json), true).metadata
         == Some(Strip(SplitOn(SplitOn(json + CLOSE, MARKER)[0], CLOSE)[0]))
  {
    var s := Encode(reply, json);
    ContainsFind(s, MARKER);
    MarkerFirst(reply, json);
    var i := |reply| + 2;
    EncodedTail(reply, json);
    SplitFirst(s, MARKER, i);
  }

  /** CLOSE cannot complete a marker, nor can a marker or an earlier dash in the text complete an early CLOSE. */
  lemma NoStraddle(json: string, j: nat)
    requires j < |json|
    ensures At(json + CLOSE, MARKER, j) <==> At(json, MARKER, j)
    ensures At(json + CLOSE, CLOSE, j) <==> At(json, CLOSE, j)
  {
    var s := json + CLOSE;
    if j + |MARKER| <= |json| {
      AtPrefix(json, CLOSE, MARKER, j);
    } else if At(s, MARKER, j) {
      AtChar(s, MARKER, j, 14);
    }
    if j + 3 <= |json| {
      AtPrefix(json, CLOSE, CLOSE, j);
    } else if At(s, CLOSE, j) {
      AtChar(s, CLOSE, j, 2);
    }
  }

  /** The decoded metadata is exactly the JSON text, for one with no white space at its ends, exactly when that
      text has neither the marker nor the closing tag in it. */
  lemma MetadataExactly(reply: string, json: string)
    requires !Contains(reply, MARKER) && Tight(json)
    ensures Decode(Encode(reply, json), true).metadata == Some(json)
            <==> !Contains(json, MARKER) && !Contains(json, CLOSE)
  {
    MetadataOf(reply, json);
    var whole := json + CLOSE;
    var first := SplitOn(whole, MARKER)[0];
    ContainsFind(json, MARKER);
    ContainsFind(json, CLOSE);
    if Contains(json, MARKER) {
      CutAtFirst(json, MARKER);
      SplitFirstShort(first);
    } else {
      NoMarkerLeft(json);
      assert first == whole;
      if Contains(json, CLOSE) {
        CutAtFirst(json, CLOSE);
      } else {
        CloseLast(json);
        assert SplitOn(whole, CLOSE)[0] == whole[..|json|] == json;
        StripUnique("", json, "");
        assert "" + json + "" == json;
      }
    }
  }

  lemma StripLength(s: string)
    ensures |Strip(s)| <= |s|
  {
    var _, _ := StripSplits(s);
  }

  lemma SplitFirstShort(s: string)
    ensures |Strip(SplitOn(s, CLOSE)[0])| <= |s|
  {
    StripLength(SplitOn(s, CLOSE)[0]);
  }

  /** Splitting json + CLOSE on something that json contains keeps less than json in front. */
  lemma CutAtFirst(json: string, sep: string)
    requires sep == MARKER || sep == CLOSE
    requires Contains(json, sep)
    ensures |SplitOn(json + CLOSE, sep)[0]| < |json|
    ensures |Strip(SplitOn(json + CLOSE, sep)[0])| < |json|
  {
    ContainsFind(json, sep);
    var i := Find(json, sep, 0).value;
    AtPrefix(json, CLOSE, sep, i);
    forall j: nat | j < i ensures !At(json + CLOSE, sep, j) { NoStraddle(json, j); }
    FindLeftmost(json + CLOSE, sep, i);
    StripLength((json + CLOSE)[..i]);
  }

  lemma NoMarkerLeft(json: string)
    requires !Contains(json, MARKER)
    ensures SplitOn(json + CLOSE, MARKER) == [json + CLOSE]
  {
    forall j: nat ensures !At(json + CLOSE, MARKER, j) {
      if j < |json| { NoStraddle(json, j); }
    }
  }

  lemma CloseThere(json: string)
    ensures At(json + CLOSE, CLOSE, |json|)
  {
  }

  lemma CloseLast(json: string)
    requires !Contains(json, CLOSE)
    ensures Find(json + CLOSE, CLOSE, 0) == Some(|json|)
  {
    forall j: nat | j < |json| ensures !At(json + CLOSE, CLOSE, j) { NoStraddle(json, j); }
    CloseThere(json);
    FindLeftmost(json + CLOSE, CLOSE, |json|);
  }
}
