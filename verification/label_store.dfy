/** The interactive session's label store: the ordered list of loaded images,
    the map from image name to label, and the text-area values shown for them,
    with the user actions that change them (load, label all, batch labelling,
    label one, manual edit, remove, clear, export). The captioning model and
    the image decoder are parameters: opaque functions that may fail. */
module LabelStore {
  import opened Media
  import Utf8
  import Exporter

  /** Label shown while a caption is being generated. */
  const Placeholder: string := "Labeling..."

  /** Prefix of the label stored when captioning fails. */
  const ErrorPrefix: string := "Error: "

  /** Python's str.isspace for one character: the ASCII and Unicode
      whitespace and separator characters. */
  predicate IsSpace(c: char) {
    || ('\t' <= c <= '\r')
    || ('\U{1C}' <= c <= ' ')
    || c == '\U{85}' || c == '\U{A0}' || c == '\U{1680}'
    || ('\U{2000}' <= c <= '\U{200A}')
    || c == '\U{2028}' || c == '\U{2029}' || c == '\U{202F}' || c == '\U{205F}' || c == '\U{3000}'
  }

  /** The number of whitespace characters s starts with. */
  function LeadingSpaces(s: string): (n: nat)
    ensures n <= |s|
    ensures forall k :: 0 <= k < n ==> IsSpace(s[k])
    ensures n < |s| ==> !IsSpace(s[n])
  {
    if s != [] && IsSpace(s[0]) then 1 + LeadingSpaces(s[1..]) else 0
  }

  /** The number of whitespace characters s ends with. */
  function TrailingSpaces(s: string): (n: nat)
    ensures n <= |s|
    ensures forall k :: |s| - n <= k < |s| ==> IsSpace(s[k])
    ensures n < |s| ==> !IsSpace(s[|s| - n - 1])
  {
    if s != [] && IsSpace(s[|s| - 1]) then 1 + TrailingSpaces(s[..|s| - 1]) else 0
  }

  /** Python's str.strip(): the middle slice of s left once its leading
      whitespace and then its trailing whitespace are cut off. */
  function Strip(s: string): (r: string)
    ensures var i := LeadingSpaces(s); i + |r| <= |s| && r == s[i..i + |r|]
    ensures forall k :: LeadingSpaces(s) + |r| <= k < |s| ==> IsSpace(s[k])
    ensures r == [] <==> forall k :: 0 <= k < |s| ==> IsSpace(s[k])
    ensures r != [] ==> !IsSpace(r[0]) && !IsSpace(r[|r| - 1])
  {
    var i := LeadingSpaces(s);
    var j := TrailingSpaces(s[i..]);
    SpacesOfSuffix(s, i, j);
    StripBounds(s, i, j);
    s[i..|s| - j]
  }

  /** The trailing-space count of the suffix s[i..], read on s itself. */
  lemma SpacesOfSuffix(s: string, i: nat, j: nat)
    requires i <= |s| && j == TrailingSpaces(s[i..])
    ensures j <= |s| - i
    ensures forall k :: |s| - j <= k < |s| ==> IsSpace(s[k])
    ensures j < |s| - i ==> !IsSpace(s[|s| - j - 1])
  {
    var t := s[i..];
    forall k | |s| - j <= k < |s|
      ensures IsSpace(s[k])
    {
      assert s[k] == t[k - i];
    }
    if j < |s| - i {
      assert s[|s| - j - 1] == t[|t| - j - 1];
    }
  }

  /** The slice between i leading and j trailing whitespace characters, when
      the characters next to it are not whitespace. */
  lemma StripBounds(s: string, i: nat, j: nat)
    requires i <= |s| && j <= |s| - i
    requires forall k :: 0 <= k < i ==> IsSpace(s[k])
    requires i < |s| ==> !IsSpace(s[i])
    requires forall k :: |s| - j <= k < |s| ==> IsSpace(s[k])
    requires j < |s| - i ==> !IsSpace(s[|s| - j - 1])
    ensures var r := s[i..|s| - j];
            && (r == [] <==> forall k :: 0 <= k < |s| ==> IsSpace(s[k]))
            && (r != [] ==> !IsSpace(r[0]) && !IsSpace(r[|r| - 1]))
  {
    var r := s[i..|s| - j];
    if r != [] {
      assert r[0] == s[i];
      assert r[|r| - 1] == s[|s| - j - 1];
    }
  }

  /** A generated caption with the trigger word in front: the stripped trigger
      word and one space, unless the trigger word is blank. */
  function WithTrigger(trigger: string, caption: string): string {
    var word := Strip(trigger);
    if word != [] then word + " " + caption else caption
  }

  /** The label stored for one captioning attempt: the caption with the
      trigger word in front, or the error message after "Error: ". */
  function StoredLabel(trigger: string, result: Result<string, string>): string {
    match result
    case Success(caption) => WithTrigger(trigger, caption)
    case Failure(message) => ErrorPrefix + message
  }

  /** One captioning attempt: the caption behind the trigger word, or the
      error message after "Error: " when the captioner fails. */
  method CaptionLabel(trigger: string, caption: Bitmap -> Result<string, string>, picture: Bitmap) returns (r: string)
    ensures r == StoredLabel(trigger, caption(picture))
  {
    match caption(picture) {
      case Success(text) =>
        r := text;
        if Strip(trigger) != [] {
          r := Strip(trigger) + " " + r;
        }
      case Failure(message) =>
        r := ErrorPrefix + message;
    }
  }

  /** The names of a list of images. */
  function Names(images: seq<ImageRecord>): set<string> {
    set image | image in images :: image.name
  }

  /** The images that decode, in upload order, each with its decoded picture. */
  function Loaded(files: seq<UploadedFile>, decode: UploadedFile -> Option<Bitmap>): seq<ImageRecord> {
    if files == [] then []
    else
      var f := files[|files| - 1];
      var before := Loaded(files[..|files| - 1], decode);
      match decode(f)
      case None => before
      case Some(picture) => before + [ImageRecord(f.name, picture, f.stream)]
  }

  /** The names of the files that do not decode, in upload order. */
  function FailedNames(files: seq<UploadedFile>, decode: UploadedFile -> Option<Bitmap>): seq<string> {
    if files == [] then []
    else
      var f := files[|files| - 1];
      var before := FailedNames(files[..|files| - 1], decode);
      if decode(f).None? then before + [f.name] else before
  }

  /** The label map after captioning the images one after the other: each
      image's name gets the stored label of its captioning attempt. */
  function Relabel(m: map<string, string>, images: seq<ImageRecord>, trigger: string,
                   caption: Bitmap -> Result<string, string>): map<string, string>
  {
    if images == [] then m
    else
      var last := images[|images| - 1];
      Relabel(m, images[..|images| - 1], trigger, caption)[last.name := StoredLabel(trigger, caption(last.image))]
  }

  /** The label map with every listed image's name set to the placeholder,
      one image after the other. */
  function Mark(m: map<string, string>, images: seq<ImageRecord>): map<string, string> {
    if images == [] then m
    else Mark(m, images[..|images| - 1])[images[|images| - 1].name := Placeholder]
  }

  /** The images whose name is not the given one, in their order. */
  function Without(images: seq<ImageRecord>, name: string): seq<ImageRecord> {
    if images == [] then []
    else (if images[0].name != name then [images[0]] else []) + Without(images[1..], name)
  }

  /** The session state. */
  class Session {
    var images: seq<ImageRecord>
    /** The label of each loaded image, by name. */
    var labels: map<string, string>
    /** The value of each image's text area, by image name. */
    var textInputs: map<string, string>
    /** Set by "Label All"; the batch runs while it is set. */
    var labelingAll: bool
    /** Part of the upload widget's key; changing it empties the widget. */
    var uploaderKey: nat
    var triggerWord: string

    /** Every loaded image has a label and every label belongs to a loaded image. */
    predicate Valid()
      reads this
    {
      labels.Keys == Names(images)
    }

    /** The state of a fresh session. */
    constructor ()
      ensures Valid()
      ensures images == [] && labels == map[] && textInputs == map[]
      ensures !labelingAll && uploaderKey == 0 && triggerWord == ""
    {
      images := [];
      labels := map[];
      textInputs := map[];
      labelingAll := false;
      uploaderKey := 0;
      triggerWord := "";
    }

    /** "Load Images": replaces the image list by the files that decode, in
        upload order, gives each of their names the empty label and returns the
        names of the files that failed. An empty upload changes nothing. */
    method HandleUpload(files: seq<UploadedFile>, decode: UploadedFile -> Option<Bitmap>) returns (failed: seq<string>)
      requires Valid()
      modifies this`images, this`labels
      ensures Valid()
      ensures files == [] ==> images == old(images) && labels == old(labels) && failed == []
      ensures files != [] ==> images == Loaded(files, decode) && failed == FailedNames(files, decode)
      ensures files != [] ==> labels == map n | n in Names(images) :: ""
    {
      failed := [];
      if files != [] {
        var loaded := [];
        var i := 0;
        while i < |files|
          invariant 0 <= i <= |files|
          invariant loaded == Loaded(files[..i], decode)
          invariant failed == FailedNames(files[..i], decode)
        {
          var f := files[i];
          assert files[..i + 1][..i] == files[..i];
          match decode(f) {
            case Some(picture) =>
              loaded := loaded + [ImageRecord(f.name, picture, f.stream)];
            case None =>
              failed := failed + [f.name];
          }
          i := i + 1;
        }
        assert files[..|files|] == files;
        images := loaded;
        labels := map n | n in Names(loaded) :: "";
      }
    }

    /** The trigger word typed into its text field. */
    method SetTriggerWord(word: string)
      modifies this`triggerWord
      ensures triggerWord == word
    {
      triggerWord := word;
    }

    /** "Label All Images": every loaded image's label and text area show the
        placeholder, and the batch is requested. */
    method LabelAll()
      requires Valid()
      modifies this`labels, this`textInputs, this`labelingAll
      ensures Valid()
      ensures labelingAll
      ensures labels == Mark(old(labels), images)
      ensures textInputs == Mark(old(textInputs), images)
      ensures forall n :: n in labels ==> labels[n] == Placeholder
    {
      labelingAll := true;
      var i := 0;
      while i < |images|
        invariant 0 <= i <= |images|
        invariant labels == Mark(old(labels), images[..i])
        invariant textInputs == Mark(old(textInputs), images[..i])
        invariant labelingAll
      {
        var name := images[i].name;
        assert images[..i + 1][..i] == images[..i];
        labels := labels[name := Placeholder];
        textInputs := textInputs[name := Placeholder];
        i := i + 1;
      }
      assert images[..|images|] == images;
      MarkSpec(old(labels), images);
      assert labels.Keys == Names(images);
    }

    /** The batch labelling pass: when requested, captions every loaded image
        in order, storing the caption (behind the trigger word) or the error
        message as its label and text-area value; it then clears the request. */
    method RunBatch(caption: Bitmap -> Result<string, string>)
      requires Valid()
      modifies this`labels, this`textInputs, this`labelingAll
      ensures Valid()
      ensures !labelingAll
      ensures old(labelingAll) ==> labels == Relabel(old(labels), images, triggerWord, caption)
      ensures old(labelingAll) ==> textInputs == Relabel(old(textInputs), images, triggerWord, caption)
      ensures !old(labelingAll) ==> labels == old(labels) && textInputs == old(textInputs)
    {
      if labelingAll {
        for i := 0 to |images|
          invariant labels == Relabel(old(labels), images[..i], triggerWord, caption)
          invariant textInputs == Relabel(old(textInputs), images[..i], triggerWord, caption)
        {
          var image := images[i];
          RelabelStep(old(labels), images, i, triggerWord, caption);
          RelabelStep(old(textInputs), images, i, triggerWord, caption);
          var newLabel := CaptionLabel(triggerWord, caption, image.image);
          labels := labels[image.name := newLabel];
          textInputs := textInputs[image.name := newLabel];
        }
        assert images[..|images|] == images;
        RelabelKeys(old(labels), images, triggerWord, caption);
        assert labels.Keys == Names(images);
        labelingAll := false;
      }
    }

    /** The "Label" button of image i: its label and text area show the
        placeholder, then the caption (behind the trigger word) or the error
        message. */
    method LabelOne(i: nat, caption: Bitmap -> Result<string, string>)
      requires Valid()
      requires i < |images|
      modifies this`labels, this`textInputs
      ensures Valid()
      ensures labels == old(labels)[images[i].name := StoredLabel(triggerWord, caption(images[i].image))]
      ensures textInputs == old(textInputs)[images[i].name := StoredLabel(triggerWord, caption(images[i].image))]
    {
      var image := images[i];
      labels := labels[image.name := Placeholder];
      textInputs := textInputs[image.name := Placeholder];
      var newLabel := CaptionLabel(triggerWord, caption, image.image);
      Overwrite(old(labels), image.name, Placeholder, newLabel);
      Overwrite(old(textInputs), image.name, Placeholder, newLabel);
      labels := labels[image.name := newLabel];
      textInputs := textInputs[image.name := newLabel];
    }

    /** Rendering image i for the first time: its text area starts from the
        stored label. */
    method InitTextInput(i: nat)
      requires Valid()
      requires i < |images|
      modifies this`textInputs
      ensures images[i].name in old(textInputs) ==> textInputs == old(textInputs)
      ensures images[i].name !in old(textInputs) ==> textInputs == old(textInputs)[images[i].name := labels[images[i].name]]
    {
      var name := images[i].name;
      if name !in textInputs {
        textInputs := textInputs[name := Exporter.LabelText(labels, name)];
      }
    }

    /** The user edits image i's text area: the text becomes its label. */
    method Edit(i: nat, text: string)
      requires Valid()
      requires i < |images|
      modifies this`labels, this`textInputs
      ensures Valid()
      ensures labels == old(labels)[images[i].name := text]
      ensures textInputs == old(textInputs)[images[i].name := text]
    {
      var name := images[i].name;
      textInputs := textInputs[name := text];
      labels := labels[name := textInputs[name]];
    }

    /** The "Remove" button of image i: every image of that name leaves the
        list, the others keep their order, and its label and text area go. */
    method Remove(i: nat)
      requires Valid()
      requires i < |images|
      modifies this`images, this`labels, this`textInputs
      ensures Valid()
      ensures images == Without(old(images), old(images)[i].name)
      ensures labels == old(labels) - {old(images)[i].name}
      ensures textInputs == old(textInputs) - {old(images)[i].name}
    {
      var name := images[i].name;
      NamesWithout(images, name);
      images := Without(images, name);
      if name in labels {
        labels := labels - {name};
      }
      if name in textInputs {
        textInputs := textInputs - {name};
      }
    }

    /** "Clear All Images": no images, no labels, no text-area values, and a
        new upload widget. */
    method Clear()
      modifies this`images, this`labels, this`textInputs, this`uploaderKey
      ensures Valid()
      ensures images == [] && labels == map[] && textInputs == map[]
      ensures uploaderKey == old(uploaderKey) + 1
    {
      images := [];
      labels := map[];
      var keysToRemove := textInputs.Keys;
      while keysToRemove != {}
        invariant images == [] && labels == map[] && uploaderKey == old(uploaderKey)
        invariant textInputs.Keys == keysToRemove
        decreases keysToRemove
      {
        var key :| key in keysToRemove;
        textInputs := textInputs - {key};
        keysToRemove := keysToRemove - {key};
      }
      assert textInputs == map[];
      uploaderKey := uploaderKey + 1;
    }

    /** "Export All": the archive of the loaded images and their labels, or
        nothing when no image is loaded. */
    method Export() returns (archive: Option<seq<Exporter.Entry>>)
      modifies set k | 0 <= k < |images| :: images[k].file
      ensures images == [] ==> archive == None
      ensures forall k :: 0 <= k < |images| ==> images[k].file.pos == |images[k].file.data|
      ensures images != [] ==> archive == Some(Exporter.Archive(Exporter.Snapshot(images), labels))
    {
      if images != [] {
        var entries := Exporter.CreateZip(images, labels);
        archive := Some(entries);
      } else {
        archive := None;
      }
    }
  }

  /** A second write to a key replaces the first. */
  lemma Overwrite(m: map<string, string>, key: string, first: string, second: string)
    ensures m[key := first][key := second] == m[key := second]
  {
  }

  /** Writing a key adds it to the keys. */
  lemma KeysAfterWrite(m: map<string, string>, key: string, value: string)
    ensures m[key := value].Keys == m.Keys + {key}
  {
  }

  /** The names of two lists joined are the names of both. */
  lemma NamesAppend(a: seq<ImageRecord>, b: seq<ImageRecord>)
    ensures Names(a + b) == Names(a) + Names(b)
  {
    assert forall x :: x in a + b <==> x in a || x in b;
  }

  /** Removing a name removes exactly that name from the names. */
  lemma {:induction false} NamesWithout(images: seq<ImageRecord>, name: string)
    ensures Names(Without(images, name)) == Names(images) - {name}
  {
    if images != [] {
      NamesWithout(images[1..], name);
      var head := if images[0].name != name then [images[0]] else [];
      assert images == [images[0]] + images[1..];
      NamesAppend([images[0]], images[1..]);
      NamesAppend(head, Without(images[1..], name));
    }
  }

  /** The relabelled map's keys: the old keys and the images' names. */
  lemma {:induction false} RelabelKeys(m: map<string, string>, images: seq<ImageRecord>, trigger: string,
                                       caption: Bitmap -> Result<string, string>)
    ensures Relabel(m, images, trigger, caption).Keys == m.Keys + Names(images)
  {
    if images != [] {
      var n := |images|;
      var before, last := images[..n - 1], images[n - 1];
      var earlier := Relabel(m, before, trigger, caption);
      KeysAfterWrite(earlier, last.name, StoredLabel(trigger, caption(last.image)));
      RelabelKeys(m, before, trigger, caption);
      NamesAppend(before, [last]);
      assert before + [last] == images;
      assert Names([last]) == {last.name} by {
        assert last in [last];
      }
    }
  }

  /** One more image relabelled: its name gets its stored label. */
  lemma RelabelStep(m: map<string, string>, images: seq<ImageRecord>, i: nat, trigger: string,
                    caption: Bitmap -> Result<string, string>)
    requires i < |images|
    ensures Relabel(m, images[..i + 1], trigger, caption)
            == Relabel(m, images[..i], trigger, caption)[images[i].name := StoredLabel(trigger, caption(images[i].image))]
  {
    assert images[..i + 1][..i] == images[..i];
  }

  /** Marking gives every listed name the placeholder and leaves every other
      label as it was. */
  lemma {:induction false} MarkSpec(m: map<string, string>, images: seq<ImageRecord>)
    ensures Mark(m, images).Keys == m.Keys + Names(images)
    ensures forall n :: n in Names(images) ==> Mark(m, images)[n] == Placeholder
    ensures forall n :: n in m && n !in Names(images) ==> Mark(m, images)[n] == m[n]
  {
    if images != [] {
      var k := |images| - 1;
      var before, last := images[..k], images[k];
      assert Mark(m, images) == Mark(m, before)[last.name := Placeholder];
      MarkSpec(m, before);
      assert before + [last] == images;
      NamesAppend(before, [last]);
      assert Names([last]) == {last.name} by {
        assert last in [last];
      }
    }
  }

  /** Stripping twice strips no more than stripping once. */
  lemma StripIdempotent(s: string)
    ensures Strip(Strip(s)) == Strip(s)
  {
    var t := Strip(s);
    if t != [] {
      assert LeadingSpaces(t) == 0;
      assert TrailingSpaces(t[0..]) == 0 by {
        assert t[0..] == t;
      }
    }
  }

  /** Whitespace around the trigger word does not change a label. */
  lemma TriggerWhitespaceIgnored(trigger: string, caption: string)
    ensures WithTrigger(Strip(trigger), caption) == WithTrigger(trigger, caption)
  {
    StripIdempotent(trigger);
  }

  /** The caption always ends the label, verbatim; a blank trigger word leaves
      the caption alone, any other puts the stripped word and one space first. */
  lemma WithTriggerShape(trigger: string, caption: string)
    ensures |WithTrigger(trigger, caption)| >= |caption|
    ensures WithTrigger(trigger, caption)[|WithTrigger(trigger, caption)| - |caption|..] == caption
    ensures (forall k :: 0 <= k < |trigger| ==> IsSpace(trigger[k])) ==> WithTrigger(trigger, caption) == caption
    ensures (exists k :: 0 <= k < |trigger| && !IsSpace(trigger[k])) ==>
              WithTrigger(trigger, caption)[..|WithTrigger(trigger, caption)| - |caption|] == Strip(trigger) + " "
  {
    var word := Strip(trigger);
    if word != [] {
      assert WithTrigger(trigger, caption) == (word + " ") + caption;
    }
  }

  /** "photo of" before "a dog running" gives "photo of a dog running". */
  lemma WithTriggerExample()
    ensures WithTrigger("photo of", "a dog running") == "photo of a dog running"
  {
    var word, caption := "photo of", "a dog running";
    StripWord();
    assert WithTrigger(word, caption) == word + " " + caption;
    assert word + " " + caption == "photo of a dog running";
  }

  /** A trigger word with no whitespace at either end is kept as it is. */
  lemma StripWord()
    ensures Strip("photo of") == "photo of"
  {
    var t := "photo of";
    assert !IsSpace(t[0]) && !IsSpace(t[|t| - 1]);
    assert LeadingSpaces(t) == 0;
    assert TrailingSpaces(t[0..]) == 0 by {
      assert t[0..] == t;
    }
  }

  /** Uploading two batches one after the other keeps the images of each, in
      order. */
  lemma {:induction false} LoadedAppend(a: seq<UploadedFile>, b: seq<UploadedFile>, decode: UploadedFile -> Option<Bitmap>)
    ensures Loaded(a + b, decode) == Loaded(a, decode) + Loaded(b, decode)
    ensures FailedNames(a + b, decode) == FailedNames(a, decode) + FailedNames(b, decode)
  {
    LoadedAppendImages(a, b, decode);
    LoadedAppendFailures(a, b, decode);
  }

  /** The images loaded from two batches joined, batch by batch. */
  lemma {:induction false} LoadedAppendImages(a: seq<UploadedFile>, b: seq<UploadedFile>, decode: UploadedFile -> Option<Bitmap>)
    ensures Loaded(a + b, decode) == Loaded(a, decode) + Loaded(b, decode)
    decreases |b|
  {
    if b == [] {
      assert a + b == a;
    } else {
      var n := |b|;
      assert (a + b)[..|a + b| - 1] == a + b[..n - 1];
      assert (a + b)[|a + b| - 1] == b[n - 1];
      LoadedAppendImages(a, b[..n - 1], decode);
    }
  }

  /** The failures reported for two batches joined, batch by batch. */
  lemma {:induction false} LoadedAppendFailures(a: seq<UploadedFile>, b: seq<UploadedFile>, decode: UploadedFile -> Option<Bitmap>)
    ensures FailedNames(a + b, decode) == FailedNames(a, decode) + FailedNames(b, decode)
    decreases |b|
  {
    if b == [] {
      assert a + b == a;
    } else {
      var n := |b|;
      assert (a + b)[..|a + b| - 1] == a + b[..n - 1];
      assert (a + b)[|a + b| - 1] == b[n - 1];
      LoadedAppendFailures(a, b[..n - 1], decode);
    }
  }

  /** A file that does not decode is reported and skipped; the files after it
      are still loaded. */
  lemma LoadedSkipsFailure(a: seq<UploadedFile>, f: UploadedFile, b: seq<UploadedFile>, decode: UploadedFile -> Option<Bitmap>)
    requires decode(f).None?
    ensures Loaded(a + [f] + b, decode) == Loaded(a, decode) + Loaded(b, decode)
    ensures FailedNames(a + [f] + b, decode) == FailedNames(a, decode) + [f.name] + FailedNames(b, decode)
  {
    LoadedAppend(a + [f], b, decode);
    LoadedAppend(a, [f], decode);
    assert [f][..0] == [];
  }

  /** A file that decodes is loaded, with its name, picture and stream, between
      the files before it and the files after it. */
  lemma LoadedKeepsSuccess(a: seq<UploadedFile>, f: UploadedFile, b: seq<UploadedFile>, decode: UploadedFile -> Option<Bitmap>)
    requires decode(f).Some?
    ensures Loaded(a + [f] + b, decode) == Loaded(a, decode) + [ImageRecord(f.name, decode(f).value, f.stream)] + Loaded(b, decode)
  {
    LoadedAppend(a + [f], b, decode);
    LoadedAppend(a, [f], decode);
    assert [f][..0] == [];
  }

  /** Every file is either loaded or reported as failed. */
  lemma {:induction false} LoadedCount(files: seq<UploadedFile>, decode: UploadedFile -> Option<Bitmap>)
    ensures |Loaded(files, decode)| + |FailedNames(files, decode)| == |files|
  {
    if files != [] {
      LoadedCount(files[..|files| - 1], decode);
    }
  }

  /** The loaded names are exactly the names of the files that decode. */
  lemma {:induction false} LoadedNames(files: seq<UploadedFile>, decode: UploadedFile -> Option<Bitmap>)
    ensures Names(Loaded(files, decode)) == set f | f in files && decode(f).Some? :: f.name
  {
    if files != [] {
      var k := |files| - 1;
      var f := files[k];
      LoadedNames(files[..k], decode);
      assert files == files[..k] + [f];
      assert forall g :: g in files <==> g in files[..k] || g == f;
      match decode(f) {
        case None =>
        case Some(picture) =>
          NamesAppend(Loaded(files[..k], decode), [ImageRecord(f.name, picture, f.stream)]);
      }
    }
  }

  /** After the batch, an image's name holds the stored label of its own
      captioning attempt, unless a later image has the same name. */
  lemma {:induction false} RelabelAt(m: map<string, string>, images: seq<ImageRecord>, trigger: string,
                                     caption: Bitmap -> Result<string, string>, k: nat)
    requires k < |images|
    requires forall j :: k < j < |images| ==> images[j].name != images[k].name
    ensures images[k].name in Relabel(m, images, trigger, caption)
    ensures Relabel(m, images, trigger, caption)[images[k].name] == StoredLabel(trigger, caption(images[k].image))
  {
    var n := |images|;
    var before, last := images[..n - 1], images[n - 1];
    var earlier := Relabel(m, before, trigger, caption);
    assert Relabel(m, images, trigger, caption) == earlier[last.name := StoredLabel(trigger, caption(last.image))];
    if k < n - 1 {
      assert before[k] == images[k];
      forall j | k < j < |before|
        ensures before[j].name != before[k].name
      {
        assert before[j] == images[j];
      }
      RelabelAt(m, before, trigger, caption, k);
      assert last.name != images[k].name;
    }
  }

  /** After the batch, every loaded name holds the caption or error string of
      some image of that name. */
  lemma {:induction false} RelabelOverwritesAll(m: map<string, string>, images: seq<ImageRecord>, trigger: string,
                                                caption: Bitmap -> Result<string, string>, name: string)
    requires name in Names(images)
    ensures name in Relabel(m, images, trigger, caption)
    ensures exists k :: 0 <= k < |images| && images[k].name == name &&
                        Relabel(m, images, trigger, caption)[name] == StoredLabel(trigger, caption(images[k].image))
  {
    var last := |images| - 1;
    if images[last].name != name {
      NamesAppend(images[..last], [images[last]]);
      assert images[..last] + [images[last]] == images;
      RelabelOverwritesAll(m, images[..last], trigger, caption, name);
      var k :| 0 <= k < last && images[..last][k].name == name &&
               Relabel(m, images[..last], trigger, caption)[name] == StoredLabel(trigger, caption(images[..last][k].image));
      assert images[k] == images[..last][k];
    }
  }

  /** Names that no image has keep their label through the batch. */
  lemma {:induction false} RelabelOthers(m: map<string, string>, images: seq<ImageRecord>, trigger: string,
                                         caption: Bitmap -> Result<string, string>, name: string)
    requires name !in Names(images)
    ensures name in Relabel(m, images, trigger, caption) <==> name in m
    ensures name in m ==> Relabel(m, images, trigger, caption)[name] == m[name]
  {
    if images != [] {
      var last := |images| - 1;
      NamesAppend(images[..last], [images[last]]);
      assert images[..last] + [images[last]] == images;
      RelabelOthers(m, images[..last], trigger, caption, name);
    }
  }

  /** Removal keeps exactly the images with another name. */
  lemma {:induction false} WithoutMembers(images: seq<ImageRecord>, name: string)
    ensures |Without(images, name)| <= |images|
    ensures forall x :: x in Without(images, name) <==> x in images && x.name != name
  {
    if images != [] {
      WithoutMembers(images[1..], name);
      assert images == [images[0]] + images[1..];
    }
  }

  /** Removal keeps the relative order of the images that stay. */
  lemma {:induction false} WithoutAppend(a: seq<ImageRecord>, b: seq<ImageRecord>, name: string)
    ensures Without(a + b, name) == Without(a, name) + Without(b, name)
  {
    if a != [] {
      assert (a + b)[1..] == a[1..] + b;
      WithoutAppend(a[1..], b, name);
    } else {
      assert a + b == b;
    }
  }

  /** Removing a name no image has changes nothing. */
  lemma {:induction false} WithoutAbsent(images: seq<ImageRecord>, name: string)
    requires name !in Names(images)
    ensures Without(images, name) == images
  {
    if images != [] {
      assert images[0] in images;
      assert Names(images[1..]) <= Names(images);
      WithoutAbsent(images[1..], name);
      assert images == [images[0]] + images[1..];
    }
  }

  /** In a consistent session every label file holds the stored label; the
      empty-label default is never taken. */
  lemma ExportReadsStoredLabels(images: seq<ImageRecord>, labels: map<string, string>, k: nat)
    requires labels.Keys == Names(images)
    requires k < |images|
    ensures images[k].name in labels
    ensures Exporter.Archive(Exporter.Snapshot(images), labels)[2 * k + 1]
            == Exporter.Entry(Exporter.TxtFileName(images[k].name), Utf8.Encode(labels[images[k].name]))
  {
    assert images[k] in images;
    Exporter.ArchiveAt(Exporter.Snapshot(images), labels, k);
  }

  /** Labelling a batch and exporting it: image k's label file reads back as
      its caption (behind the trigger word) or its error string, provided no
      later image writes an entry of the same name. */
  lemma BatchThenExport(m: map<string, string>, images: seq<ImageRecord>, trigger: string,
                        caption: Bitmap -> Result<string, string>, k: nat)
    requires k < |images|
    requires forall j :: k < j < |images| ==>
               && images[j].name != images[k].name
               && images[j].name != Exporter.TxtFileName(images[k].name)
               && Exporter.TxtFileName(images[j].name) != Exporter.TxtFileName(images[k].name)
    ensures Exporter.TxtFileName(images[k].name) in Exporter.Unpack(Exporter.Archive(Exporter.Snapshot(images), Relabel(m, images, trigger, caption)))
    ensures Utf8.Decode(Exporter.Unpack(Exporter.Archive(Exporter.Snapshot(images), Relabel(m, images, trigger, caption)))[Exporter.TxtFileName(images[k].name)])
            == Some(StoredLabel(trigger, caption(images[k].image)))
  {
    var labels := Relabel(m, images, trigger, caption);
    RelabelAt(m, images, trigger, caption, k);
    Exporter.LabelFileRoundTrip(Exporter.Snapshot(images), labels, k);
  }
}
