/**
 * Media intake: the two disk-storage callbacks (which directory, which file
 * name) and the `fields([foto, video])` intake that turns the file parts of
 * one multipart request into at most one stored path per media field.
 */
module Upload {
  import opened Wrappers
  import Paths
  import Decimal

  /** The error both storage callbacks raise for an unexpected field name. */
  const InvalidFieldMessage: string := "Nome do campo inválido"

  /** The only file parts the controller accepts. */
  predicate IsMediaField(fieldname: string)
  {
    fieldname == "foto" || fieldname == "video"
  }

  /** The `destination` callback: the upload directory, for media fields only. */
  function Destination(fieldname: string, uploadDir: string): (r: Result<string, string>)
    ensures r.Success? <==> IsMediaField(fieldname)
    ensures r.Success? ==> r.value == uploadDir
    ensures r.Failure? ==> r.error == InvalidFieldMessage
  {
    if IsMediaField(fieldname) then Success(uploadDir) else Failure(InvalidFieldMessage)
  }

  /** `<fieldname>-<clock reading><original extension>`. */
  function NameFor(fieldname: string, now: nat, originalname: string): string
  {
    fieldname + "-" + Decimal.ToDecimal(now) + Paths.Extname(originalname)
  }

  /** The `filename` callback: a generated name, for media fields only. */
  function StoredFilename(fieldname: string, now: nat, originalname: string): (r: Result<string, string>)
    ensures r.Success? <==> IsMediaField(fieldname)
    ensures r.Failure? ==> r.error == InvalidFieldMessage
    ensures r.Success? ==> '/' !in r.value
    ensures r.Success? ==> |r.value| > |fieldname| && r.value[..|fieldname| + 1] == fieldname + "-"
  {
    if IsMediaField(fieldname) then
      var name := NameFor(fieldname, now, originalname);
      Paths.ExtnameShape(originalname);
      assert name[..|fieldname| + 1] == fieldname + "-";
      Success(name)
    else
      Failure(InvalidFieldMessage)
  }

  /** The three parts a stored file name is built from. */
  datatype NameParts = NameParts(fieldname: string, timestamp: nat, extension: string)

  /** Index of the first `c` in `s`, or |s| when there is none. */
  function IndexOf(s: string, c: char): (r: nat)
    ensures r <= |s|
    ensures r < |s| ==> s[r] == c
    ensures forall k | 0 <= k < r :: s[k] != c
  {
    if |s| == 0 then 0
    else if s[0] == c then 0
    else 1 + IndexOf(s[1..], c)
  }

  /** Length of the longest prefix of `s` made of digits. */
  function DigitRun(s: string): (r: nat)
    ensures r <= |s|
    ensures Decimal.AllDigits(s[..r])
    ensures r < |s| ==> !Decimal.IsDigit(s[r])
  {
    if |s| == 0 || !Decimal.IsDigit(s[0]) then 0
    else
      var n := DigitRun(s[1..]);
      assert s[..n + 1] == [s[0]] + s[1..][..n];
      1 + n
  }

  /**
   * Reads a stored file name back into its parts: a media field name, a
   * '-', a canonical decimal timestamp and an extension.
   */
  function ParseStoredName(name: string): Option<NameParts>
  {
    var i := IndexOf(name, '-');
    if i == |name| || !IsMediaField(name[..i]) then None
    else
      match ParseTail(name[i + 1..])
      case None => None
      case Some(NameParts(_, t, e)) => Some(NameParts(name[..i], t, e))
  }

  /**
   * Reads the `<timestamp><extension>` part after the field name. The field
   * name of the result is left empty; ParseStoredName fills it in.
   */
  function ParseTail(rest: string): Option<NameParts>
  {
    var n := DigitRun(rest);
    var digits := rest[..n];
    if n == 0 || Decimal.ToDecimal(Decimal.ValueOf(digits)) != digits then None
    else if !Paths.IsExtension(rest[n..]) then None
    else Some(NameParts("", Decimal.ValueOf(digits), rest[n..]))
  }

  /** The first '-' of a generated name is the one right after the field name. */
  lemma {:induction false} DashFollowsField(fieldname: string, tail: string)
    requires IsMediaField(fieldname)
    ensures IndexOf(fieldname + "-" + tail, '-') == |fieldname|
  {
    var name := fieldname + "-" + tail;
    var i := IndexOf(name, '-');
    assert name[|fieldname|] == '-';
  }

  /** The digit run of a numeral followed by an extension is exactly the numeral. */
  lemma {:induction false} DigitRunOfNumeral(digits: string, ext: string)
    requires Decimal.AllDigits(digits)
    requires Paths.IsExtension(ext)
    ensures DigitRun(digits + ext) == |digits|
  {
    var rest := digits + ext;
    assert |ext| > 0 ==> rest[|digits|] == ext[0];
  }

  lemma {:induction false} ParseTailOfNumeral(now: nat, ext: string)
    requires Paths.IsExtension(ext)
    ensures ParseTail(Decimal.ToDecimal(now) + ext) == Some(NameParts("", now, ext))
  {
    var digits := Decimal.ToDecimal(now);
    var rest := digits + ext;
    DigitRunOfNumeral(digits, ext);
    assert rest[..|digits|] == digits;
    assert rest[|digits|..] == ext;
    Decimal.ValueOfToDecimal(now);
  }

  /** A field name, '-', a numeral and an extension parse back to their parts. */
  lemma {:induction false} ParseComposed(fieldname: string, now: nat, ext: string)
    requires IsMediaField(fieldname) && Paths.IsExtension(ext)
    ensures ParseStoredName(fieldname + "-" + Decimal.ToDecimal(now) + ext) == Some(NameParts(fieldname, now, ext))
  {
    var tail := Decimal.ToDecimal(now) + ext;
    var name := fieldname + "-" + Decimal.ToDecimal(now) + ext;
    assert name == fieldname + "-" + tail;
    ParseTailOfNumeral(now, ext);
    DashFollowsField(fieldname, tail);
    assert name[..|fieldname|] == fieldname;
    assert name[|fieldname| + 1..] == tail;
  }

  /** Every generated name parses back to the field, the clock reading and the original extension. */
  lemma {:induction false} ParseStoredFilename(fieldname: string, now: nat, originalname: string)
    requires IsMediaField(fieldname)
    ensures StoredFilename(fieldname, now, originalname).Success?
    ensures ParseStoredName(StoredFilename(fieldname, now, originalname).value)
            == Some(NameParts(fieldname, now, Paths.Extname(originalname)))
  {
    Paths.ExtnameShape(originalname);
    ParseComposed(fieldname, now, Paths.Extname(originalname));
  }

  lemma SplitAround(s: string, i: nat)
    requires i < |s|
    ensures s == s[..i] + [s[i]] + s[i + 1..]
  {
  }

  lemma ConcatAssoc(a: string, b: string, c: string)
    ensures a + (b + c) == a + b + c
  {
  }

  /** A tail that parses is exactly the numeral of its timestamp followed by its extension. */
  lemma {:induction false} ParsedTailIsGenerated(rest: string)
    requires ParseTail(rest).Some?
    ensures rest == Decimal.ToDecimal(ParseTail(rest).value.timestamp) + ParseTail(rest).value.extension
  {
    var n := DigitRun(rest);
    assert rest == rest[..n] + rest[n..];
  }

  /** A name that parses is exactly the name generated from its parts. */
  lemma {:induction false} ParsedNameIsGenerated(name: string, parts: NameParts)
    requires ParseStoredName(name) == Some(parts)
    ensures name == parts.fieldname + "-" + Decimal.ToDecimal(parts.timestamp) + parts.extension
  {
    var i := IndexOf(name, '-');
    var rest := name[i + 1..];
    var tail := ParseTail(rest).value;
    assert parts == NameParts(name[..i], tail.timestamp, tail.extension);
    ParsedTailIsGenerated(rest);
    var digits := Decimal.ToDecimal(parts.timestamp);
    assert rest == digits + parts.extension;
    SplitAround(name, i);
    assert [name[i]] == "-";
    ConcatAssoc(parts.fieldname + "-", digits, parts.extension);
  }

  /** Two files with a different field or a different clock reading never share a stored name. */
  lemma StoredNamesDistinct(f1: string, t1: nat, o1: string, f2: string, t2: nat, o2: string)
    requires IsMediaField(f1) && IsMediaField(f2)
    requires f1 != f2 || t1 != t2
    ensures StoredFilename(f1, t1, o1).value != StoredFilename(f2, t2, o2).value
  {
    ParseStoredFilename(f1, t1, o1);
    ParseStoredFilename(f2, t2, o2);
  }

  /** A generated name before its extension holds no '.' and no '/'. */
  lemma {:induction false} StemIsPlain(fieldname: string, digits: string)
    requires IsMediaField(fieldname) && Decimal.AllDigits(digits)
    ensures '.' !in fieldname + "-" + digits && '/' !in fieldname + "-" + digits
  {
    var stem := fieldname + "-" + digits;
    assert '.' !in fieldname && '/' !in fieldname;
    forall k | 0 <= k < |stem|
      ensures stem[k] != '.' && stem[k] != '/'
    {
      if k < |fieldname| {
        assert stem[k] == fieldname[k];
      } else if k > |fieldname| {
        assert stem[k] == digits[k - |fieldname| - 1];
      }
    }
  }

  /** The file keeps the extension of the file the client uploaded. */
  lemma {:induction false} StoredFilenameKeepsExtension(fieldname: string, now: nat, originalname: string)
    requires IsMediaField(fieldname)
    ensures Paths.Extname(StoredFilename(fieldname, now, originalname).value) == Paths.Extname(originalname)
  {
    var stem := fieldname + "-" + Decimal.ToDecimal(now);
    Paths.ExtnameShape(originalname);
    StemIsPlain(fieldname, Decimal.ToDecimal(now));
    assert NameFor(fieldname, now, originalname) == stem + Paths.Extname(originalname);
    Paths.ExtnameOfSuffix(stem, Paths.Extname(originalname));
  }

  /** One file part of a multipart request, with the clock reading taken when it was named. */
  datatype IncomingFile = IncomingFile(fieldname: string, originalname: string, now: nat)

  /** The stored path of each media field, or None when that field was not uploaded. */
  datatype Media = Media(foto: Option<string>, video: Option<string>)

  /** Why an upload was refused: a field outside foto/video, or a second file for one field. */
  datatype IntakeError = InvalidField(name: string) | UnexpectedFile(name: string)

  function Slot(m: Media, fieldname: string): Option<string>
  {
    if fieldname == "foto" then m.foto else if fieldname == "video" then m.video else None
  }

  function Fill(m: Media, fieldname: string, path: string): Media
  {
    if fieldname == "foto" then m.(foto := Some(path)) else m.(video := Some(path))
  }

  /** Where disk storage puts a file part: the upload directory joined with its generated name. */
  function StoredPath(uploadDir: string, f: IncomingFile): string
  {
    uploadDir + "/" + NameFor(f.fieldname, f.now, f.originalname)
  }

  /** What `fields([{foto, 1}, {video, 1}])` admits: media fields only, each at most once. */
  predicate Admissible(files: seq<IncomingFile>)
  {
    && (forall i | 0 <= i < |files| :: IsMediaField(files[i].fieldname))
    && (forall i, j | 0 <= i < j < |files| :: files[i].fieldname != files[j].fieldname)
  }

  /** `m` holds, for each media field, the stored path of the part uploaded under it, and nothing else. */
  predicate Describes(files: seq<IncomingFile>, m: Media, uploadDir: string)
  {
    && (m.foto.Some? <==> Uploaded(files, "foto"))
    && (m.video.Some? <==> Uploaded(files, "video"))
    && (forall i | 0 <= i < |files| :: Slot(m, files[i].fieldname) == Some(StoredPath(uploadDir, files[i])))
  }

  /** Whether some part of `files` was uploaded under `fieldname`. */
  predicate Uploaded(files: seq<IncomingFile>, fieldname: string)
  {
    exists i | 0 <= i < |files| :: files[i].fieldname == fieldname
  }

  lemma {:induction false} UploadedAppend(init: seq<IncomingFile>, last: IncomingFile, fieldname: string)
    ensures Uploaded(init + [last], fieldname) <==> Uploaded(init, fieldname) || last.fieldname == fieldname
  {
    var files := init + [last];
    if Uploaded(files, fieldname) {
      var i :| 0 <= i < |files| && files[i].fieldname == fieldname;
      if i < |init| { assert init[i] == files[i]; }
    }
    if Uploaded(init, fieldname) {
      var i :| 0 <= i < |init| && init[i].fieldname == fieldname;
      assert files[i] == init[i];
    }
    assert files[|init|] == last;
  }

  /** A media part under a field not used before keeps the request admissible. */
  lemma {:induction false} AdmissibleStep(init: seq<IncomingFile>, last: IncomingFile)
    requires Admissible(init)
    requires IsMediaField(last.fieldname) && !Uploaded(init, last.fieldname)
    ensures Admissible(init + [last])
  {
    var files := init + [last];
    forall i | 0 <= i < |files|
      ensures IsMediaField(files[i].fieldname)
    {
      if i < |init| { assert files[i] == init[i]; }
    }
    forall i, j | 0 <= i < j < |files|
      ensures files[i].fieldname != files[j].fieldname
    {
      assert files[i] == init[i];
      if j < |init| { assert files[j] == init[j]; }
    }
  }

  /** Storing one more admissible part extends the description by that part. */
  lemma {:induction false} IntakeStep(init: seq<IncomingFile>, last: IncomingFile, m: Media, uploadDir: string)
    requires Admissible(init) && Describes(init, m, uploadDir)
    requires IsMediaField(last.fieldname) && Slot(m, last.fieldname).None?
    ensures Admissible(init + [last])
    ensures Describes(init + [last], Fill(m, last.fieldname, StoredPath(uploadDir, last)), uploadDir)
  {
    var files := init + [last];
    var m' := Fill(m, last.fieldname, StoredPath(uploadDir, last));
    assert !Uploaded(init, last.fieldname);
    AdmissibleStep(init, last);
    forall i | 0 <= i < |files|
      ensures Slot(m', files[i].fieldname) == Some(StoredPath(uploadDir, files[i]))
    {
      if i < |init| {
        assert files[i] == init[i];
        assert init[i].fieldname != last.fieldname;
      }
    }
    UploadedAppend(init, last, "foto");
    UploadedAppend(init, last, "video");
  }

  /** A part under a field that already holds a file makes the request inadmissible. */
  lemma {:induction false} RepeatedField(init: seq<IncomingFile>, last: IncomingFile, m: Media, uploadDir: string)
    requires Describes(init, m, uploadDir)
    requires Slot(m, last.fieldname).Some?
    ensures !Admissible(init + [last])
    ensures Uploaded(init, last.fieldname)
  {
    var files := init + [last];
    var i :| 0 <= i < |init| && init[i].fieldname == last.fieldname;
    assert files[i] == init[i] && files[|init|] == last;
  }

  /** An inadmissible prefix stays inadmissible. */
  lemma {:induction false} InadmissiblePrefix(init: seq<IncomingFile>, last: IncomingFile)
    requires !Admissible(init)
    ensures !Admissible(init + [last])
  {
    var files := init + [last];
    if exists i | 0 <= i < |init| :: !IsMediaField(init[i].fieldname) {
      var i :| 0 <= i < |init| && !IsMediaField(init[i].fieldname);
      assert files[i] == init[i];
    } else {
      var i, j :| 0 <= i < j < |init| && init[i].fieldname == init[j].fieldname;
      assert files[i] == init[i] && files[j] == init[j];
    }
  }

  /**
   * Stores the file parts in order, asking the `destination` callback for the
   * directory and the `filename` callback for the name of each; the first
   * refused part fails the whole upload. On success each media field holds
   * the path of its file part, if any.
   */
  function Intake(files: seq<IncomingFile>, uploadDir: string): (r: Result<Media, IntakeError>)
    ensures r.Success? <==> Admissible(files)
    ensures r.Success? ==> Describes(files, r.value, uploadDir)
    ensures r.Failure? ==> Uploaded(files, r.error.name)
    ensures r.Failure? && r.error.InvalidField? ==> !IsMediaField(r.error.name)
  {
    if |files| == 0 then Success(Media(None, None))
    else
      var init := files[..|files| - 1];
      var last := files[|files| - 1];
      assert files == init + [last];
      match Intake(init, uploadDir)
      case Failure(e) =>
        InadmissiblePrefix(init, last);
        UploadedAppend(init, last, e.name);
        Failure(e)
      case Success(m) =>
        match Destination(last.fieldname, uploadDir)
        case Failure(_) =>
          UploadedAppend(init, last, last.fieldname);
          Failure(InvalidField(last.fieldname))
        case Success(dir) =>
          var name := StoredFilename(last.fieldname, last.now, last.originalname).value;
          if Slot(m, last.fieldname).Some? then
            RepeatedField(init, last, m, uploadDir);
            UploadedAppend(init, last, last.fieldname);
            Failure(UnexpectedFile(last.fieldname))
          else
            IntakeStep(init, last, m, uploadDir);
            Success(Fill(m, last.fieldname, dir + "/" + name))
  }
}
