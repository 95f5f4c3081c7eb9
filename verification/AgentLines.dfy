/** What an agent lists is what a recipient is read from: each line of a listing is a public key line. */
module AgentLines {
  import opened Wrappers
  import opened Bytes
  import opened Base64
  import opened Wire
  import opened AgeHeader
  import opened AgentWire
  import AgeKeys

  /** The name at the start of a blob, decoded. */
  function NameOf(decode: bytes -> Option<Text>, blob: bytes): Option<Text> {
    match TakeString(blob)
    case None => None
    case Some((name, _)) => decode(name)
  }

  /** What a strict UTF-8 decoder says encodes back. */
  ghost predicate IsUtf8(decode: bytes -> Option<Text>) {
    forall name, algo :: decode(name) == Some(algo) ==> AgeKeys.Utf8(algo) == Some(name)
  }

  lemma LineOfBlob(decode: bytes -> Option<Text>, blob: bytes)
    ensures var name := NameOf(decode, blob);
      PublicLine(decode, blob) == if name.None? then None else Some(AgeKeys.KeyLine(name.value, blob, []))
  {
    StringAtIsTakeString(blob, 0);
    assert blob[0..] == blob;
    hide PaddedB64, TakeString, StringAt;
    var name := NameOf(decode, blob);
    if name.Some? {
      var line := name.value + [AgentWire.SPACE as nat] + PaddedB64(blob);
      assert line + [] == line;
    }
  }

  lemma FirstString(blob: bytes)
    requires WireStringsOf(blob).Some? && blob != []
    ensures TakeString(blob).Some? && WireStringsOf(blob).value != []
    ensures WireStringsOf(blob).value[0] == TakeString(blob).value.0
  {
  }

  lemma PartsAreRead(line: Text)
    requires AgeKeys.PublicKeyParts(line).Ok?
    ensures var (algo, blob) := AgeKeys.PublicKeyParts(line).value; IsWord(algo) && WireStringsOf(blob).Some?
  {
    SplitYieldsWords(line);
    hide Split, IsWord, Decode, WireStringsOf, AgeKeys.Utf8;
    assert Split(line)[0] in Split(line);
  }

  /** A listed line is read back as the name and the blob it was made of, exactly when the name is one word and the blob
      is whole wire strings: the two things the listing itself does not look at. */
  lemma ListedLineIsKeyLine(decode: bytes -> Option<Text>, blob: bytes)
    requires IsUtf8(decode) && PublicLine(decode, blob).Some?
    ensures NameOf(decode, blob).Some?
    ensures var line, algo := PublicLine(decode, blob).value, NameOf(decode, blob).value;
      AgeKeys.PublicKeyParts(line) == Ok((algo, blob)) <==> IsWord(algo) && WireStringsOf(blob).Some?
  {
    LineOfBlob(decode, blob);
    hide PublicLine, IsWord, WireStringsOf, AgeKeys.Utf8, AgeKeys.KeyLine, AgeKeys.PublicKeyParts;
    var line, algo := PublicLine(decode, blob).value, NameOf(decode, blob).value;
    if IsWord(algo) && WireStringsOf(blob).Some? {
      FirstString(blob);
      AgeKeys.KeyLineReadsBack(algo, blob, WireStringsOf(blob).value, []);
    }
    if AgeKeys.PublicKeyParts(line) == Ok((algo, blob)) {
      PartsAreRead(line);
    }
  }

  lemma {:induction false} EachLine(decode: bytes -> Option<Text>, entries: seq<(bytes, bytes)>)
    ensures PublicLines(decode, entries).Some?
       <==> forall i :: 0 <= i < |entries| ==> PublicLine(decode, entries[i].0).Some?
    ensures PublicLines(decode, entries).Some? ==>
      && |PublicLines(decode, entries).value| == |entries|
      && forall i :: 0 <= i < |entries| ==>
        Some(PublicLines(decode, entries).value[i]) == PublicLine(decode, entries[i].0)
  {
    hide PublicLine;
    if entries != [] {
      var rest := entries[1..];
      EachLine(decode, rest);
      assert forall i :: 0 < i < |entries| ==> entries[i] == rest[i - 1];
      assert forall i :: 0 <= i < |rest| ==> rest[i] == entries[i + 1];
    }
  }

  /** A listing of identities is read exactly when every blob starts with a name that decodes; its lines are then in the
      identities' order, and each is read as a public key by the other codec, name and blob, exactly when the name is a
      word and the blob whole strings. */
  lemma ListingIsKeyLines(decode: bytes -> Option<Text>, entries: seq<(bytes, bytes)>)
    requires |entries| < Pow256(4) && forall e :: e in entries ==> Fits(e.0) && Fits(e.1)
    requires IsUtf8(decode)
    ensures Lines(decode, Listing(entries)).Some?
       <==> forall i :: 0 <= i < |entries| ==> NameOf(decode, entries[i].0).Some?
    ensures Lines(decode, Listing(entries)).Some? ==>
      var lines := Lines(decode, Listing(entries)).value;
      && |lines| == |entries|
      && forall i :: 0 <= i < |entries| ==>
        var blob, algo := entries[i].0, NameOf(decode, entries[i].0).value;
        AgeKeys.PublicKeyParts(lines[i]) == Ok((algo, blob)) <==> IsWord(algo) && WireStringsOf(blob).Some?
  {
    ListingsReadBack(decode, entries);
    EachLine(decode, entries);
    hide *;
    forall i | 0 <= i < |entries|
      ensures PublicLine(decode, entries[i].0).Some? <==> NameOf(decode, entries[i].0).Some?
    {
      LineOfBlob(decode, entries[i].0);
    }
    if Lines(decode, Listing(entries)).Some? {
      forall i | 0 <= i < |entries|
        ensures var blob, algo := entries[i].0, NameOf(decode, entries[i].0).value;
          (AgeKeys.PublicKeyParts(Lines(decode, Listing(entries)).value[i]) == Ok((algo, blob)))
            <==> (IsWord(algo) && WireStringsOf(blob).Some?)
      {
        ListedLineIsKeyLine(decode, entries[i].0);
      }
    }
  }
}
