/** The archive exporter: every loaded image and its label become two archive
    entries, the image under its own name and the label, UTF-8 encoded, under
    the image name with its last extension replaced by ".txt". The archive is
    modelled as the ordered list of entries written into it; the ZIP container
    and its compression are not part of this model. */
module Exporter {
  import opened Media
  import Utf8

  const TxtSuffix: string := ".txt"

  /** k is the position of the last '.' in s. */
  predicate IsLastDot(s: string, k: nat) {
    k < |s| && s[k] == '.' && forall j :: k < j < |s| ==> s[j] != '.'
  }

  /** Position of the last '.' in s, if there is one. */
  function LastDot(s: string): (r: Option<nat>)
    ensures r.Some? ==> IsLastDot(s, r.value)
    ensures r.None? <==> '.' !in s
  {
    if s == [] then None
    else if s[|s| - 1] == '.' then Some(|s| - 1)
    else
      assert s == s[..|s| - 1] + [s[|s| - 1]];
      LastDot(s[..|s| - 1])
  }

  /** The label file's name for an image name: everything before the last '.'
      (the whole name when there is none) followed by ".txt". */
  function TxtFileName(imageName: string): (r: string)
  {
    match LastDot(imageName)
    case None => imageName + TxtSuffix
    case Some(k) => imageName[..k] + TxtSuffix
  }

  /** A name without '.' keeps all of itself: "noext" gives "noext.txt". */
  lemma TxtFileNameNoDot(imageName: string)
    requires '.' !in imageName
    ensures TxtFileName(imageName) == imageName + TxtSuffix
  {
  }

  /** A name with a '.' keeps everything before its last '.': "a.b.jpg" gives
      "a.b.txt". */
  lemma TxtFileNameLastDot(imageName: string, k: nat)
    requires IsLastDot(imageName, k)
    ensures TxtFileName(imageName) == imageName[..k] + TxtSuffix
  {
    var d := LastDot(imageName);
    assert d.Some? by {
      assert imageName[k] == '.';
    }
  }

  /** Every label file name ends with ".txt". */
  lemma TxtFileNameEndsWithTxt(imageName: string)
    ensures |TxtFileName(imageName)| >= |TxtSuffix|
    ensures TxtFileName(imageName)[|TxtFileName(imageName)| - |TxtSuffix|..] == TxtSuffix
  {
    var r := TxtFileName(imageName);
    var stem := r[..|r| - |TxtSuffix|];
    assert r == stem + TxtSuffix;
  }

  /** The two names quoted for the naming rule. */
  lemma TxtFileNameExamples()
    ensures TxtFileName("a.b.jpg") == "a.b.txt"
    ensures TxtFileName("noext") == "noext.txt"
  {
    TxtFileNameLastDot("a.b.jpg", 3);
    TxtFileNameNoDot("noext");
  }

  /** One write into the archive: an entry name and its bytes. */
  datatype Entry = Entry(name: string, data: seq<byte>)

  /** What the exporter needs of one image: its name and its file's content. */
  datatype ExportItem = ExportItem(name: string, content: seq<byte>)

  /** The exporter's view of the loaded images: names and full file contents.
      A plain projection, so its contract spells out the element-wise mapping. */
  function Snapshot(images: seq<ImageRecord>): (r: seq<ExportItem>)
    ensures |r| == |images|
    ensures forall i :: 0 <= i < |images| ==> r[i].name == images[i].name && r[i].content == images[i].file.data
  {
    seq(|images|, i requires 0 <= i < |images| => ExportItem(images[i].name, images[i].file.data))
  }

  /** The label stored for a name, the empty label when there is none. */
  function LabelText(labels: map<string, string>, name: string): string {
    if name in labels then labels[name] else ""
  }

  /** The image entry of one item. */
  function ImageEntry(item: ExportItem): Entry {
    Entry(item.name, item.content)
  }

  /** The label entry of one item. */
  function LabelEntry(item: ExportItem, labels: map<string, string>): Entry {
    Entry(TxtFileName(item.name), Utf8.Encode(LabelText(labels, item.name)))
  }

  /** The entries written for a list of items, in order: for each item its
      image entry and then its label entry. */
  function Archive(items: seq<ExportItem>, labels: map<string, string>): (r: seq<Entry>)
    ensures |r| == 2 * |items|
  {
    if items == [] then []
    else
      var last := items[|items| - 1];
      Archive(items[..|items| - 1], labels) + [ImageEntry(last), LabelEntry(last, labels)]
  }

  /** Builds the archive of the loaded images: for each image in order it
      rewinds the file, writes its whole content under the image name, then
      writes the label under the derived ".txt" name. Every file is left
      positioned at its end. */
  method CreateZip(images: seq<ImageRecord>, labels: map<string, string>) returns (entries: seq<Entry>)
    modifies set i | 0 <= i < |images| :: images[i].file
    ensures entries == Archive(Snapshot(images), labels)
    ensures forall i :: 0 <= i < |images| ==> images[i].file.pos == |images[i].file.data|
  {
    ghost var items := Snapshot(images);
    entries := [];
    var i := 0;
    while i < |images|
      invariant 0 <= i <= |images|
      invariant entries == Archive(items[..i], labels)
      invariant forall j :: 0 <= j < i ==> images[j].file.pos == |images[j].file.data|
    {
      var written := WriteItem(images[i], labels);
      entries := entries + written;
      ArchiveStep(items, labels, i);
      i := i + 1;
    }
    assert items[..|images|] == items;
  }

  /** The two writes for one image: its rewound file's whole content under its
      own name, then its label under the derived ".txt" name. */
  method WriteItem(image: ImageRecord, labels: map<string, string>) returns (written: seq<Entry>)
    modifies image.file
    ensures written == [ImageEntry(ExportItem(image.name, image.file.data)),
                        LabelEntry(ExportItem(image.name, image.file.data), labels)]
    ensures image.file.pos == |image.file.data|
  {
    image.file.Seek(0);
    var content := image.file.Read();
    var txtName := TxtFileName(image.name);
    var labelText := LabelText(labels, image.name);
    written := [Entry(image.name, content), Entry(txtName, Utf8.Encode(labelText))];
  }

  /** Entry k of the archive: item k / 2's image entry at even positions, its
      label entry at odd ones. */
  lemma {:induction false} ArchiveAt(items: seq<ExportItem>, labels: map<string, string>, k: nat)
    requires k < |items|
    ensures Archive(items, labels)[2 * k] == ImageEntry(items[k])
    ensures Archive(items, labels)[2 * k + 1] == LabelEntry(items[k], labels)
  {
    var n := |items|;
    if k < n - 1 {
      ArchiveAt(items[..n - 1], labels, k);
    }
  }

  /** Exporting two lists one after the other writes the same entries as
      exporting them joined: the archive follows input order. */
  lemma {:induction false} ArchiveAppend(a: seq<ExportItem>, b: seq<ExportItem>, labels: map<string, string>)
    ensures Archive(a + b, labels) == Archive(a, labels) + Archive(b, labels)
    decreases |b|
  {
    if b == [] {
      assert a + b == a;
    } else {
      var n := |b|;
      assert (a + b)[..|a + b| - 1] == a + b[..n - 1];
      assert (a + b)[|a + b| - 1] == b[n - 1];
      ArchiveAppend(a, b[..n - 1], labels);
    }
  }

  /** Labels stored under names that match no item are never read: two label
      maps that agree on the items' names give the same archive. */
  lemma {:induction false} StaleLabelsIgnored(items: seq<ExportItem>, labels: map<string, string>, other: map<string, string>)
    requires forall i :: 0 <= i < |items| ==> LabelText(labels, items[i].name) == LabelText(other, items[i].name)
    ensures Archive(items, labels) == Archive(items, other)
  {
    if items != [] {
      StaleLabelsIgnored(items[..|items| - 1], labels, other);
    }
  }

  /** What a reader extracting the archive sees: each name holds the data of
      the last entry written under it. */
  function Unpack(entries: seq<Entry>): (r: map<string, seq<byte>>)
  {
    if entries == [] then map[]
    else
      var last := entries[|entries| - 1];
      Unpack(entries[..|entries| - 1])[last.name := last.data]
  }

  /** A name is present after extraction exactly when some entry was written
      under it, and it then holds the data of the last such entry. */
  lemma {:induction false} UnpackLastWriteWins(entries: seq<Entry>, k: nat)
    requires k < |entries|
    requires forall j :: k < j < |entries| ==> entries[j].name != entries[k].name
    ensures entries[k].name in Unpack(entries)
    ensures Unpack(entries)[entries[k].name] == entries[k].data
  {
    var n := |entries|;
    if k < n - 1 {
      UnpackLastWriteWins(entries[..n - 1], k);
    }
  }

  /** Names never written are absent after extraction. */
  lemma {:induction false} UnpackOnlyWrittenNames(entries: seq<Entry>, name: string)
    requires forall j :: 0 <= j < |entries| ==> entries[j].name != name
    ensures name !in Unpack(entries)
  {
    if entries != [] {
      UnpackOnlyWrittenNames(entries[..|entries| - 1], name);
    }
  }

  /** Reading a label file back out of the archive gives the item's label (the
      empty label when the map has none), unless a later item writes an entry
      under the same name. */
  lemma LabelFileRoundTrip(items: seq<ExportItem>, labels: map<string, string>, k: nat)
    requires k < |items|
    requires forall j :: k < j < |items| ==>
               items[j].name != TxtFileName(items[k].name) && TxtFileName(items[j].name) != TxtFileName(items[k].name)
    ensures TxtFileName(items[k].name) in Unpack(Archive(items, labels))
    ensures Utf8.Decode(Unpack(Archive(items, labels))[TxtFileName(items[k].name)]) == Some(LabelText(labels, items[k].name))
  {
    var txt := TxtFileName(items[k].name);
    var entry := LabelEntry(items[k], labels);
    var written := Archive(items[..k], labels) + [ImageEntry(items[k]), entry];
    var later := items[k + 1..];
    ArchiveSplit(items, labels, k);
    forall i | 0 <= i < |later|
      ensures later[i].name != txt && TxtFileName(later[i].name) != txt
    {
      assert later[i] == items[k + 1 + i];
    }
    ArchiveAvoids(later, labels, txt);
    UnpackAppendUnwritten(written, Archive(later, labels), txt);
    UnpackLast(written, entry);
    Utf8.DecodeEncode(LabelText(labels, items[k].name));
  }

  /** The archive around item k: what comes before it, its two entries, and
      what comes after it. */
  lemma ArchiveSplit(items: seq<ExportItem>, labels: map<string, string>, k: nat)
    requires k < |items|
    ensures Archive(items, labels)
            == Archive(items[..k], labels) + [ImageEntry(items[k]), LabelEntry(items[k], labels)] + Archive(items[k + 1..], labels)
  {
    var done, later := items[..k + 1], items[k + 1..];
    assert items == done + later;
    ArchiveAppend(done, later, labels);
    ArchiveStep(items, labels, k);
  }

  /** One more item exported: its two entries follow those of the items
      before it. */
  lemma ArchiveStep(items: seq<ExportItem>, labels: map<string, string>, i: nat)
    requires i < |items|
    ensures Archive(items[..i + 1], labels) == Archive(items[..i], labels) + [ImageEntry(items[i]), LabelEntry(items[i], labels)]
  {
    assert items[..i + 1][..i] == items[..i];
  }

  /** The entry written last under its name is what extraction keeps. */
  lemma UnpackLast(entries: seq<Entry>, e: Entry)
    ensures e.name in Unpack(entries + [e]) && Unpack(entries + [e])[e.name] == e.data
  {
    assert (entries + [e])[..|entries|] == entries;
  }

  /** An archive of items none of which is named x and none of which derives
      the label name x has no entry named x. */
  lemma {:induction false} ArchiveAvoids(items: seq<ExportItem>, labels: map<string, string>, x: string)
    requires forall i :: 0 <= i < |items| ==> items[i].name != x && TxtFileName(items[i].name) != x
    ensures forall j :: 0 <= j < |Archive(items, labels)| ==> Archive(items, labels)[j].name != x
  {
    if items != [] {
      var n := |items|;
      assert forall i :: 0 <= i < n - 1 ==> items[..n - 1][i] == items[i];
      ArchiveAvoids(items[..n - 1], labels, x);
    }
  }

  /** Entries written after the last one named x do not change what x holds. */
  lemma {:induction false} UnpackAppendUnwritten(a: seq<Entry>, b: seq<Entry>, x: string)
    requires forall j :: 0 <= j < |b| ==> b[j].name != x
    ensures x in Unpack(a + b) <==> x in Unpack(a)
    ensures x in Unpack(a) ==> Unpack(a + b)[x] == Unpack(a)[x]
    decreases |b|
  {
    if b == [] {
      assert a + b == a;
    } else {
      var n := |b|;
      assert (a + b)[..|a + b| - 1] == a + b[..n - 1];
      assert (a + b)[|a + b| - 1] == b[n - 1];
      UnpackAppendUnwritten(a, b[..n - 1], x);
    }
  }

  /** Two items deriving the same label name both get their label entry, in
      input order; no collision is detected or renamed. */
  lemma CollidingLabelsBothWritten(items: seq<ExportItem>, labels: map<string, string>, a: nat, b: nat)
    requires a < b < |items|
    requires TxtFileName(items[a].name) == TxtFileName(items[b].name)
    ensures Archive(items, labels)[2 * a + 1] == LabelEntry(items[a], labels)
    ensures Archive(items, labels)[2 * b + 1] == LabelEntry(items[b], labels)
    ensures Archive(items, labels)[2 * a + 1].name == Archive(items, labels)[2 * b + 1].name
  {
    ArchiveAt(items, labels, a);
    ArchiveAt(items, labels, b);
  }

  /** "x.png" then "x.jpg": both derive "x.txt"; after extraction the label
      file holds the label of the item written last. */
  lemma CollisionLastItemWins(png: seq<byte>, jpg: seq<byte>, labels: map<string, string>)
    ensures "x.txt" in Unpack(Archive([ExportItem("x.png", png), ExportItem("x.jpg", jpg)], labels))
    ensures Unpack(Archive([ExportItem("x.png", png), ExportItem("x.jpg", jpg)], labels))["x.txt"]
            == Utf8.Encode(LabelText(labels, "x.jpg"))
  {
    var items := [ExportItem("x.png", png), ExportItem("x.jpg", jpg)];
    var entries := Archive(items, labels);
    TxtFileNameLastDot("x.jpg", 1);
    assert "x.jpg"[..1] + TxtSuffix == "x.txt";
    ArchiveAt(items, labels, 1);
    assert entries[3] == Entry("x.txt", Utf8.Encode(LabelText(labels, "x.jpg")));
    UnpackLastWriteWins(entries, 3);
  }
}
