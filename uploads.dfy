/**
 * What the controllers do with an uploaded file: the display name kept
 * beside the stored file, and the replace-or-remove step of a single
 * image slot with the stored files it deletes and adds.
 */
module Uploads {
  import opened Wrappers
  import opened Php
  import opened Sorting
  import opened Records
  import opened Validation
  // Image rules

  /** The extensions `mimes:jpeg,jpg,png` accepts. */
  const ImageTypes: set<string> := {"jpeg", "jpg", "png"}
  /** The `max:10240` of the upload rules, in kilobytes. */
  const MaxKilobytes: nat := 10240
  /** The MIME types the content checks accept. */
  const ImageMimes: set<string> := {"image/jpeg", "image/jpg", "image/png"}
  /** The size limit of the content checks, in bytes: the same 10 MB. */
  const MaxBytes: nat := 10485760

  /** The content check: the MIME type sniffed from the file is an image type. */
  predicate ContentIsImage(f: UploadedFile)
  {
    f.mimeType in ImageMimes
  }

  // Display file names

  /** The position of the last '.' of `s`, if it has one. */
  function LastDot(s: string): (r: Option<nat>)
    ensures r.Some? ==> r.value < |s| && s[r.value] == '.'
    ensures r.Some? ==> forall i :: r.value < i < |s| ==> s[i] != '.'
    ensures r.None? ==> forall i :: 0 <= i < |s| ==> s[i] != '.'
  {
    if s == [] then None
    else if s[|s| - 1] == '.' then Some(|s| - 1)
    else LastDot(s[..|s| - 1])
  }

  /** `pathinfo($name, PATHINFO_FILENAME)`: the name without its last extension. */
  function Stem(name: string): (r: string)
    ensures |r| <= |name| && r == name[..|r|]
  {
    match LastDot(name)
    case None => name
    case Some(i) => name[..i]
  }

  /** `getClientOriginalExtension()`: what follows the last '.', or "" when there is none. */
  function Extension(name: string): (r: string)
    ensures forall i :: 0 <= i < |r| ==> r[i] != '.'
  {
    match LastDot(name)
    case None => ""
    case Some(i) => name[i + 1..]
  }

  /** A name splits into its stem and extension around the last '.'. */
  lemma StemAndExtension(name: string)
    ensures LastDot(name).Some? ==> name == Stem(name) + "." + Extension(name)
    ensures LastDot(name).None? ==> Stem(name) == name && Extension(name) == ""
  {
    if LastDot(name).Some? {
      var i := LastDot(name).value;
      assert name == name[..i] + [name[i]] + name[i + 1..];
    }
  }

  /** The characters `[a-zA-Z0-9_-]` that the sanitising pattern keeps. */
  predicate SafeChar(c: char)
  {
    ('a' <= c <= 'z') || ('A' <= c <= 'Z') || ('0' <= c <= '9') || c == '_' || c == '-'
  }

  predicate AllSafe(s: string)
  {
    forall i :: 0 <= i < |s| ==> SafeChar(s[i])
  }

  /** `preg_replace('/[^a-zA-Z0-9_-]/', '_', $s)`. */
  function Sanitize(s: string): string
  {
    if s == [] then [] else Sanitize(s[..|s| - 1]) + [if SafeChar(s[|s| - 1]) then s[|s| - 1] else '_']
  }

  /** Each character is kept when safe and replaced by '_' otherwise. */
  lemma {:induction false} SanitizeAt(s: string)
    ensures |Sanitize(s)| == |s|
    ensures forall i :: 0 <= i < |s| ==> Sanitize(s)[i] == (if SafeChar(s[i]) then s[i] else '_')
  {
    if s != [] {
      SanitizeAt(s[..|s| - 1]);
    }
  }

  /** The result is made of safe characters only, and a safe name is left as it is. */
  lemma SanitizeSafe(s: string)
    ensures AllSafe(Sanitize(s))
    ensures AllSafe(s) ==> Sanitize(s) == s
    ensures Sanitize(Sanitize(s)) == Sanitize(s)
  {
    SanitizeAt(s);
    SanitizeAt(Sanitize(s));
  }

  /** A safe string never contains '.'. */
  lemma SafeHasNoDot(s: string)
    requires AllSafe(s)
    ensures LastDot(s).None?
  {
  }

  /** Appending "." and a dot-free extension puts the last dot right after `t`. */
  lemma {:induction false} LastDotOfAppended(t: string, e: string)
    requires forall i :: 0 <= i < |e| ==> e[i] != '.'
    ensures LastDot(t + "." + e) == Some(|t|)
    decreases |e|
  {
    var s := t + "." + e;
    if e == [] {
      assert s[|s| - 1] == '.';
    } else {
      assert s[|s| - 1] == e[|e| - 1];
      assert s[..|s| - 1] == t + "." + e[..|e| - 1];
      LastDotOfAppended(t, e[..|e| - 1]);
    }
  }

  /**
   * The display name of an upload: the stem sanitised and cut to 100
   * characters, then "." and the client extension.
   */
  function DisplayFilename(clientName: string): string
  {
    Take(Sanitize(Stem(clientName)), 100) + "." + Extension(clientName)
  }

  /**
   * The display name splits back into a safe stem of at most 100
   * characters, the sanitised original stem when that was short enough,
   * and the original extension.
   */
  lemma DisplayFilenameParts(clientName: string)
    ensures var r := DisplayFilename(clientName);
            Stem(r) == Take(Sanitize(Stem(clientName)), 100) && Extension(r) == Extension(clientName)
    ensures var r := DisplayFilename(clientName);
            |Stem(r)| <= 100 && AllSafe(Stem(r))
            && (|Sanitize(Stem(clientName))| <= 100 ==> Stem(r) == Sanitize(Stem(clientName)))
  {
    var t := Take(Sanitize(Stem(clientName)), 100);
    var e := Extension(clientName);
    SanitizeSafe(Stem(clientName));
    LastDotOfAppended(t, e);
    assert (t + "." + e)[..|t|] == t;
    assert (t + "." + e)[|t| + 1..] == e;
  }

  // Image slots

  /** `$request->has(key) && $request->key`: the key is sent with a truthy value. */
  predicate Requested(v: Option<Value>)
  {
    v.Some? && Truthy(v.value)
  }

  /** The slot's path when PHP finds it truthy: the file `if ($x->path && exists) delete` removes. */
  function SlotPath(current: Option<Attachment>): (r: Option<string>)
    ensures r.Some? <==> current.Some? && Truthy(Str(current.value.path))
    ensures r.Some? ==> r.value == current.value.path
  {
    if current.Some? && Truthy(Str(current.value.path)) then Some(current.value.path) else None
  }

  /** A path column PHP finds truthy: the file an `if ($x->image_path && exists) delete` removes. */
  function TruthyPath(p: Option<string>): (r: Option<string>)
    ensures r.Some? <==> p.Some? && Truthy(Str(p.value))
    ensures r.Some? ==> r == p
  {
    if p.Some? && Truthy(Str(p.value)) then p else None
  }

  /** The effect of one slot update: the new slot, the path deleted and the path stored. */
  datatype SlotStep = SlotStep(next: Option<Attachment>, deleted: Option<string>, stored: Option<string>)

  /**
   * Removal wins over an upload; both delete the old file; with neither
   * the slot and the disk are left alone.
   */
  function UpdateSlot(current: Option<Attachment>, remove: bool, upload: Option<UploadedFile>, path: string): (s: SlotStep)
    ensures remove ==> s == SlotStep(None, SlotPath(current), None)
    ensures !remove && upload.Some? ==>
              s == SlotStep(Some(Attachment(path, DisplayFilename(upload.value.clientName))), SlotPath(current), Some(path))
    ensures !remove && upload.None? ==> s == SlotStep(current, None, None)
  {
    if remove then SlotStep(None, SlotPath(current), None)
    else if upload.Some? then SlotStep(Some(Attachment(path, DisplayFilename(upload.value.clientName))), SlotPath(current), Some(path))
    else SlotStep(current, None, None)
  }

  function Drop(disk: set<string>, p: Option<string>): set<string>
  {
    if p.Some? then disk - {p.value} else disk
  }

  function Put(disk: set<string>, p: Option<string>): set<string>
  {
    if p.Some? then disk + {p.value} else disk
  }

  /** The disk after a slot step: the old file deleted first, then the new one stored. */
  function DiskAfter(disk: set<string>, s: SlotStep): set<string>
  {
    Put(Drop(disk, s.deleted), s.stored)
  }

  /** With removal requested, what is uploaded makes no difference. */
  lemma RemoveWins(current: Option<Attachment>, upload: Option<UploadedFile>, path: string)
    ensures UpdateSlot(current, true, upload, path) == UpdateSlot(current, true, None, path)
    ensures UpdateSlot(current, true, upload, path).next == None
  {
  }

  /**
   * A slot whose file is on the disk still points at a file on the disk
   * after the step, and a replaced or removed file whose path PHP finds
   * truthy is gone unless the new upload landed on the same path.
   */
  lemma SlotKeepsDiskInStep(disk: set<string>, current: Option<Attachment>, remove: bool,
                             upload: Option<UploadedFile>, path: string)
    requires current.Some? && Truthy(Str(current.value.path)) ==> current.value.path in disk
    ensures var s := UpdateSlot(current, remove, upload, path);
            s.next.Some? && Truthy(Str(s.next.value.path)) ==> s.next.value.path in DiskAfter(disk, s)
    ensures var s := UpdateSlot(current, remove, upload, path);
            current.Some? && Truthy(Str(current.value.path)) && s.next != current
            && (s.stored.Some? ==> s.stored.value != current.value.path)
            ==> current.value.path !in DiskAfter(disk, s)
  {
  }
}
