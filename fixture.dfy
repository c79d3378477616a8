/** The metainfo dictionary that `create_test_torrent_file` builds and
    bencodes: the single-file layout of the "metainfo files" section of
    BEP 3, with an `announce` URL and an `info` dictionary holding `name`,
    `length`, `piece length` and `pieces`. */
module TorrentFixture {
  import opened Bytes
  import opened Bencode

  /** The content the test torrent describes. */
  const TestContent: Bytes := Ascii("This is a test file for torrent testing.")
  const PieceLength: int := 32768

  const AnnounceKey: Bytes := Ascii("announce")
  const InfoKey: Bytes := Ascii("info")
  const NameKey: Bytes := Ascii("name")
  const LengthKey: Bytes := Ascii("length")
  const PieceLengthKey: Bytes := Ascii("piece length")
  const PiecesKey: Bytes := Ascii("pieces")

  const AnnounceUrl: Bytes := Ascii("http://tracker.example.com:8080/announce")
  const FileName: Bytes := Ascii("test-file.txt")

  /** The `info` dictionary, in the insertion order of the source. The SHA-1
      digest of the content is a parameter: `pieceHash` stands for
      `hashlib.sha1(test_content).digest()`. */
  function InfoEntries(pieceHash: Bytes): seq<Entry> {
    [ Entry(NameKey, BStr(FileName)),
      Entry(LengthKey, BInt(|TestContent|)),
      Entry(PieceLengthKey, BInt(PieceLength)),
      Entry(PiecesKey, BStr(pieceHash)) ]
  }

  /** `torrent_dict`. */
  function Metainfo(pieceHash: Bytes): BValue {
    BDict([ Entry(AnnounceKey, BStr(AnnounceUrl)),
            Entry(InfoKey, BDict(InfoEntries(pieceHash))) ])
  }

  /** The metainfo is a well-formed bencode value: no dictionary repeats a key. */
  lemma MetainfoWellFormed(pieceHash: Bytes)
    ensures WellFormed(Metainfo(pieceHash))
  {
    var info := InfoEntries(pieceHash);
    assert NameKey[0] != LengthKey[0] && NameKey[0] != PieceLengthKey[0] && NameKey[0] != PiecesKey[0];
    assert LengthKey[0] != PieceLengthKey[0] && LengthKey[0] != PiecesKey[0];
    assert |PieceLengthKey| != |PiecesKey|;
    assert DistinctKeys(info);
    assert AnnounceKey[0] != InfoKey[0];
    assert WellFormed(BDict(info));
  }

  /** In the encoded metainfo `announce` comes before `info`. */
  lemma MetainfoKeyOrder(pieceHash: Bytes)
    ensures EncodedKeyOrder(Metainfo(pieceHash).entries) == [AnnounceKey, InfoKey]
  {
    var es := Metainfo(pieceHash).entries;
    var want := [AnnounceKey, InfoKey];
    assert KeyLess(AnnounceKey, InfoKey) by {
      assert AnnounceKey[0] < InfoKey[0];
    }
    assert Sorted(want);
    assert Keys(es) == want;
    SortedUnique(EncodedKeyOrder(es), want);
  }

  /** Inside `info` the keys are written as `length`, `name`, `piece length`,
      `pieces`: ascending byte order, not the insertion order. */
  lemma InfoKeyOrder(pieceHash: Bytes)
    ensures EncodedKeyOrder(InfoEntries(pieceHash)) == [LengthKey, NameKey, PieceLengthKey, PiecesKey]
  {
    var es := InfoEntries(pieceHash);
    assert KeyLess(LengthKey, NameKey) by {
      assert LengthKey[0] < NameKey[0];
    }
    assert KeyLess(NameKey, PieceLengthKey) by {
      assert NameKey[0] < PieceLengthKey[0];
    }
    PieceKeysOrdered();
    ChainSorted(LengthKey, NameKey, PieceLengthKey, PiecesKey);
    assert Keys(es) == [NameKey, LengthKey, PieceLengthKey, PiecesKey];
    SwapFirstTwo(NameKey, LengthKey, PieceLengthKey, PiecesKey);
    SortedUnique(EncodedKeyOrder(es), [LengthKey, NameKey, PieceLengthKey, PiecesKey]);
  }

  /** Four keys each below the next are sorted. */
  lemma ChainSorted(a: Bytes, b: Bytes, c: Bytes, d: Bytes)
    requires KeyLess(a, b) && KeyLess(b, c) && KeyLess(c, d)
    ensures Sorted([a, b, c, d])
  {
    var want := [a, b, c, d];
    KeyLessTransitive(a, b, c);
    KeyLessTransitive(a, c, d);
    KeyLessTransitive(b, c, d);
    forall i, j | 0 <= i < j < 4 ensures !KeyLess(want[j], want[i]) {
      if KeyLess(want[j], want[i]) {
        KeyLessTransitive(want[i], want[j], want[i]);
        KeyLessIrreflexive(want[i]);
      }
    }
  }

  lemma SwapFirstTwo(a: Bytes, b: Bytes, c: Bytes, d: Bytes)
    ensures multiset([a, b, c, d]) == multiset([b, a, c, d])
  {
  }

  /** `piece length` sorts before `pieces`: after the common `piece`, a space
      (32) is below `s` (115). */
  lemma PieceKeysOrdered()
    ensures KeyLess(PieceLengthKey, PiecesKey)
  {
    var a, b := PieceLengthKey, PiecesKey;
    assert a[5..][0] == 32 && b[5..][0] == 115;
    assert KeyLess(a[5..], b[5..]);
    assert a[4..][1..] == a[5..] && b[4..][1..] == b[5..];
    assert KeyLess(a[4..], b[4..]);
    assert a[3..][1..] == a[4..] && b[3..][1..] == b[4..];
    assert KeyLess(a[3..], b[3..]);
    assert a[2..][1..] == a[3..] && b[2..][1..] == b[3..];
    assert KeyLess(a[2..], b[2..]);
    assert a[1..][1..] == a[2..] && b[1..][1..] == b[2..];
    assert KeyLess(a[1..], b[1..]);
  }

  /** The source writes these numbers in decimal: 32768 as `32768`. */
  lemma PieceLengthText()
    ensures NatText(PieceLength) == Ascii("32768")
  {
    SmallNatText(32);
    assert NatText(327) == NatText(32) + [Zero + 7];
    assert NatText(3276) == NatText(327) + [Zero + 6];
    assert NatText(32768) == NatText(3276) + [Zero + 8];
  }

  lemma InfoDistinct(pieceHash: Bytes)
    ensures DistinctKeys(InfoEntries(pieceHash))
  {
    MetainfoWellFormed(pieceHash);
    assert Metainfo(pieceHash).entries[1].value == BDict(InfoEntries(pieceHash));
  }

  // Each key of `info` is written next to its own value.

  lemma LengthEntry(pieceHash: Bytes)
    ensures var p := BDict(InfoEntries(pieceHash));
      LengthKey in Keys(p.entries) && EncodeEntry(p, LengthKey) == Ascii("6:length") + Ascii("i40e")
  {
    InfoDistinct(pieceHash);
    EntryEncoding(InfoEntries(pieceHash), 1);
    LengthTokens();
  }

  lemma LengthTokens()
    ensures EncodeBytes(LengthKey) == Ascii("6:length")
    ensures Encode(BInt(|TestContent|)) == Ascii("i40e")
  {
    LengthKeyToken();
    SmallNatText(40);
  }

  lemma NameEntry(pieceHash: Bytes)
    ensures var p := BDict(InfoEntries(pieceHash));
      NameKey in Keys(p.entries) && EncodeEntry(p, NameKey) == Ascii("4:name") + Ascii("13:test-file.txt")
  {
    InfoDistinct(pieceHash);
    EntryEncoding(InfoEntries(pieceHash), 0);
    NameTokens();
  }

  lemma NameTokens()
    ensures EncodeBytes(NameKey) == Ascii("4:name")
    ensures Encode(BStr(FileName)) == Ascii("13:test-file.txt")
  {
    NameKeyToken();
    FileNameToken();
  }

  lemma FileNameToken()
    ensures EncodeBytes(FileName) == Ascii("13:test-file.txt")
  {
    SmallNatText(13);
  }

  lemma PieceLengthEntry(pieceHash: Bytes)
    ensures var p := BDict(InfoEntries(pieceHash));
      PieceLengthKey in Keys(p.entries) &&
      EncodeEntry(p, PieceLengthKey) == Ascii("12:piece length") + Ascii("i32768e")
  {
    InfoDistinct(pieceHash);
    EntryEncoding(InfoEntries(pieceHash), 2);
    PieceLengthTokens();
  }

  lemma PieceLengthTokens()
    ensures EncodeBytes(PieceLengthKey) == Ascii("12:piece length")
    ensures Encode(BInt(PieceLength)) == Ascii("i32768e")
  {
    PieceLengthKeyToken();
    PieceLengthValueToken();
  }

  lemma PieceLengthValueToken()
    ensures Encode(BInt(PieceLength)) == Ascii("i32768e")
  {
    PieceLengthText();
  }

  lemma LengthKeyToken()
    ensures EncodeBytes(LengthKey) == Ascii("6:length")
  {
    SmallNatText(6);
  }

  lemma NameKeyToken()
    ensures EncodeBytes(NameKey) == Ascii("4:name")
  {
    SmallNatText(4);
  }

  lemma PieceLengthKeyToken()
    ensures EncodeBytes(PieceLengthKey) == Ascii("12:piece length")
  {
    SmallNatText(12);
  }

  lemma PiecesKeyToken()
    ensures EncodeBytes(PiecesKey) == Ascii("6:pieces")
  {
    SmallNatText(6);
  }

  lemma PiecesEntry(pieceHash: Bytes)
    requires |pieceHash| == 20
    ensures var p := BDict(InfoEntries(pieceHash));
      PiecesKey in Keys(p.entries) && EncodeEntry(p, PiecesKey) == Ascii("6:pieces") + (Ascii("20:") + pieceHash)
  {
    InfoDistinct(pieceHash);
    EntryEncoding(InfoEntries(pieceHash), 3);
    PiecesTokens(pieceHash);
  }

  lemma PiecesTokens(pieceHash: Bytes)
    requires |pieceHash| == 20
    ensures EncodeBytes(PiecesKey) == Ascii("6:pieces")
    ensures Encode(BStr(pieceHash)) == Ascii("20:") + pieceHash
  {
    PiecesKeyToken();
    SmallNatText(20);
    assert NatText(|pieceHash|) + [Colon] == Ascii("20:");
  }

  /** The encoded `info` dictionary, token by token: keys in ascending
      order, `length` is the 40 bytes of the test content, `piece length`
      is 32768, and `pieces` carries the 20-byte digest verbatim. */
  lemma InfoEncoding(pieceHash: Bytes)
    requires |pieceHash| == 20
    ensures Encode(BDict(InfoEntries(pieceHash))) ==
      Ascii("d") + Ascii("6:length") + Ascii("i40e") + Ascii("4:name") + Ascii("13:test-file.txt")
      + Ascii("12:piece length") + Ascii("i32768e") + Ascii("6:pieces") + Ascii("20:") + pieceHash
      + Ascii("e")
  {
    var d, a1, a2, b1, b2 := Ascii("d"), Ascii("6:length"), Ascii("i40e"), Ascii("4:name"), Ascii("13:test-file.txt");
    var c1, c2, p1, p2, e := Ascii("12:piece length"), Ascii("i32768e"), Ascii("6:pieces"), Ascii("20:"), Ascii("e");
    var p := BDict(InfoEntries(pieceHash));
    InfoStructure(pieceHash);
    Delimiters();
    LengthEntry(pieceHash);
    NameEntry(pieceHash);
    PieceLengthEntry(pieceHash);
    PiecesEntry(pieceHash);
    Assemble(Encode(p), d, a1, a2, b1, b2, c1, c2, p1, p2, pieceHash, e,
             EncodeEntry(p, LengthKey), EncodeEntry(p, NameKey), EncodeEntry(p, PieceLengthKey),
             EncodeEntry(p, PiecesKey));
  }

  /** The encoded `info` dictionary is `d`, the four entries in ascending key
      order, and `e`. */
  lemma InfoStructure(pieceHash: Bytes)
    ensures var p := BDict(InfoEntries(pieceHash));
      LengthKey in Keys(p.entries) && NameKey in Keys(p.entries) &&
      PieceLengthKey in Keys(p.entries) && PiecesKey in Keys(p.entries) &&
      Encode(p) == [TagDict] + (EncodeEntry(p, LengthKey) + (EncodeEntry(p, NameKey) +
        (EncodeEntry(p, PieceLengthKey) + EncodeEntry(p, PiecesKey)))) + [TagEnd]
  {
    InfoKeyOrder(pieceHash);
    FourKeyDict(BDict(InfoEntries(pieceHash)), LengthKey, NameKey, PieceLengthKey, PiecesKey);
  }

  lemma Assemble(enc: Bytes, d: Bytes, a1: Bytes, a2: Bytes, b1: Bytes, b2: Bytes, c1: Bytes, c2: Bytes,
                 p1: Bytes, p2: Bytes, h: Bytes, e: Bytes, x1: Bytes, x2: Bytes, x3: Bytes, x4: Bytes)
    requires [TagDict] == d && [TagEnd] == e
    requires enc == [TagDict] + (x1 + (x2 + (x3 + x4))) + [TagEnd]
    requires x1 == a1 + a2 && x2 == b1 + b2 && x3 == c1 + c2 && x4 == p1 + (p2 + h)
    ensures enc == d + a1 + a2 + b1 + b2 + c1 + c2 + p1 + p2 + h + e
  {
    Regroup(d, a1, a2, b1, b2, c1, c2, p1, p2, h, e);
  }

  lemma Delimiters()
    ensures [TagDict] == Ascii("d") && [TagEnd] == Ascii("e")
  {
  }

  /** A dictionary whose keys encode in the order `k1`, `k2`, `k3`, `k4`. */
  lemma FourKeyDict(p: BValue, k1: Bytes, k2: Bytes, k3: Bytes, k4: Bytes)
    requires p.BDict? && EncodedKeyOrder(p.entries) == [k1, k2, k3, k4]
    ensures k1 in Keys(p.entries) && k2 in Keys(p.entries) && k3 in Keys(p.entries) && k4 in Keys(p.entries)
    ensures Encode(p) ==
      [TagDict] + (EncodeEntry(p, k1) + (EncodeEntry(p, k2) + (EncodeEntry(p, k3) + EncodeEntry(p, k4)))) + [TagEnd]
  {
    var ks := [k1, k2, k3, k4];
    assert k1 in ks && k2 in ks && k3 in ks && k4 in ks;
    FourEntries(p, k1, k2, k3, k4);
  }

  lemma FourEntries(p: BValue, k1: Bytes, k2: Bytes, k3: Bytes, k4: Bytes)
    requires p.BDict?
    requires k1 in Keys(p.entries) && k2 in Keys(p.entries) && k3 in Keys(p.entries) && k4 in Keys(p.entries)
    ensures EncodeEntries(p, [k1, k2, k3, k4]) ==
      EncodeEntry(p, k1) + (EncodeEntry(p, k2) + (EncodeEntry(p, k3) + EncodeEntry(p, k4)))
  {
    var s1, s2, s3, s4 := [k1, k2, k3, k4], [k2, k3, k4], [k3, k4], [k4];
    assert s1[1..] == s2 && s2[1..] == s3 && s3[1..] == s4 && s4[1..] == [];
    assert EncodeEntries(p, s4) == EncodeEntry(p, k4);
    assert EncodeEntries(p, s3) == EncodeEntry(p, k3) + EncodeEntries(p, s4);
    assert EncodeEntries(p, s2) == EncodeEntry(p, k2) + EncodeEntries(p, s3);
    assert EncodeEntries(p, s1) == EncodeEntry(p, k1) + EncodeEntries(p, s2);
  }

  lemma Regroup(d: Bytes, a1: Bytes, a2: Bytes, b1: Bytes, b2: Bytes, c1: Bytes, c2: Bytes,
                p1: Bytes, p2: Bytes, h: Bytes, e: Bytes)
    ensures d + ((a1 + a2) + ((b1 + b2) + ((c1 + c2) + (p1 + (p2 + h))))) + e
         == d + a1 + a2 + b1 + b2 + c1 + c2 + p1 + p2 + h + e
  {
    AppendAssoc(p1, p2, h);
    AppendAssoc(c1 + c2, p1 + p2, h);
    AppendAssoc(c1, c2, p1 + p2 + h);
  }

  /** The whole metainfo file: `announce` and its URL, then `info` and the
      encoded `info` dictionary, between `d` and `e`. */
  lemma MetainfoEncoding(pieceHash: Bytes)
    requires |pieceHash| == 20
    ensures Encode(Metainfo(pieceHash)) ==
      Ascii("d") + Ascii("8:announce") + Ascii("40:") + AnnounceUrl + Ascii("4:info") + Encode(BDict(InfoEntries(pieceHash))) + Ascii("e")
  {
    var m := Metainfo(pieceHash);
    MetainfoStructure(pieceHash);
    Delimiters();
    AnnounceEntry(pieceHash);
    InfoEntry(pieceHash);
    AssembleTwo(Encode(m), Ascii("d"), Ascii("8:announce"), Ascii("40:"), AnnounceUrl, Ascii("4:info"), Encode(BDict(InfoEntries(pieceHash))), Ascii("e"),
                EncodeEntry(m, AnnounceKey), EncodeEntry(m, InfoKey));
  }

  lemma MetainfoStructure(pieceHash: Bytes)
    ensures var m := Metainfo(pieceHash);
      AnnounceKey in Keys(m.entries) && InfoKey in Keys(m.entries) &&
      Encode(m) == [TagDict] + (EncodeEntry(m, AnnounceKey) + EncodeEntry(m, InfoKey)) + [TagEnd]
  {
    var m := Metainfo(pieceHash);
    var ks: seq<Bytes> := [AnnounceKey, InfoKey];
    MetainfoKeyOrder(pieceHash);
    assert AnnounceKey in ks && InfoKey in ks;
    assert ks[1..] == [InfoKey] && ks[1..][1..] == ks[..0];
    assert EncodeEntries(m, [InfoKey]) == EncodeEntry(m, InfoKey);
  }

  lemma MetainfoDistinct(pieceHash: Bytes)
    ensures DistinctKeys(Metainfo(pieceHash).entries)
  {
    MetainfoWellFormed(pieceHash);
  }

  lemma AnnounceEntry(pieceHash: Bytes)
    ensures var m := Metainfo(pieceHash);
      AnnounceKey in Keys(m.entries) &&
      EncodeEntry(m, AnnounceKey) == Ascii("8:announce") + (Ascii("40:") + AnnounceUrl)
  {
    MetainfoDistinct(pieceHash);
    EntryEncoding(Metainfo(pieceHash).entries, 0);
    AnnounceTokens();
  }

  lemma AnnounceTokens()
    ensures EncodeBytes(AnnounceKey) == Ascii("8:announce")
    ensures Encode(BStr(AnnounceUrl)) == Ascii("40:") + AnnounceUrl
  {
    SmallNatText(8);
    SmallNatText(40);
    assert NatText(|AnnounceUrl|) + [Colon] == Ascii("40:");
  }

  lemma InfoEntry(pieceHash: Bytes)
    ensures var m := Metainfo(pieceHash);
      InfoKey in Keys(m.entries) &&
      EncodeEntry(m, InfoKey) == Ascii("4:info") + Encode(BDict(InfoEntries(pieceHash)))
  {
    MetainfoDistinct(pieceHash);
    EntryEncoding(Metainfo(pieceHash).entries, 1);
    InfoKeyToken();
  }

  lemma InfoKeyToken()
    ensures EncodeBytes(InfoKey) == Ascii("4:info")
  {
    SmallNatText(4);
  }

  lemma AssembleTwo(enc: Bytes, d: Bytes, a1: Bytes, a2: Bytes, a3: Bytes, b1: Bytes, b2: Bytes, e: Bytes,
                    x1: Bytes, x2: Bytes)
    requires [TagDict] == d && [TagEnd] == e
    requires enc == [TagDict] + (x1 + x2) + [TagEnd]
    requires x1 == a1 + (a2 + a3) && x2 == b1 + b2
    ensures enc == d + a1 + a2 + a3 + b1 + b2 + e
  {
    AppendAssoc(a1, a2, a3);
    AppendAssoc(d + (a1 + a2 + a3), b1, b2);
    AppendAssoc(d, a1 + a2, a3);
    AppendAssoc(d, a1, a2);
  }
}
