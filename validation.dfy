/**
 * Request inputs and the framework's validation rules that the controllers
 * use, reduced to their meaning on the modelled inputs.
 */
module Validation {
  import opened Wrappers
  import opened Php
  import opened Records

  /**
   * One request key: absent, present with null (an empty string is turned
   * into null before the controller runs), or present with a value.
   */
  datatype Field<T> = Absent | Null | Given(value: T)
  {
    /** `$request->has(key)`: the key is present, even when null. */
    predicate Has()
    {
      !Absent?
    }

    /** `$request->input(key, default)` / `$request->key ?? default`. */
    function OrElse(default: T): (r: T)
      ensures Given? ==> r == value
      ensures !Given? ==> r == default
    {
      if Given? then value else default
    }

    /** The stored value of a nullable column created from this key: null unless given. */
    function AsOption(): (o: Option<T>)
      ensures o.Some? <==> Given?
      ensures Given? ==> o.value == value
    {
      if Given? then Some(value) else None
    }

    /** A nullable column after `update` with this key: unchanged when absent, else overwritten. */
    function Overwrite(current: Option<T>): (o: Option<T>)
      ensures !Has() ==> o == current
      ensures Null? ==> o == None
      ensures Given? ==> o == Some(value)
    {
      match this
      case Absent => current
      case Null => None
      case Given(v) => Some(v)
    }
  }

  /** The `required` rule on a string: present, not null, not blank after `trim`. */
  predicate RequiredString(f: Field<string>)
  {
    f.Given? && Trim(f.value) != ""
  }

  /** `required|string|max:n`. */
  predicate RequiredMax(f: Field<string>, n: nat)
  {
    RequiredString(f) && |f.value| <= n
  }

  /** `nullable|string|max:n`: absent or null, or a string of at most `n` characters. */
  predicate NullableMax(f: Field<string>, n: nat)
  {
    f.Given? ==> |f.value| <= n
  }

  /** `sometimes|string|max:n`: when present it must be a non-null string of at most `n` characters. */
  predicate SometimesMax(f: Field<string>, n: nat)
  {
    f.Has() ==> f.Given? && |f.value| <= n
  }

  /** `in:...` on an optional key: when present the value must be listed (null is not). */
  predicate SometimesIn(f: Field<string>, allowed: set<string>)
  {
    f.Has() ==> f.Given? && f.value in allowed
  }

  /** `required|in:...`. */
  predicate RequiredIn(f: Field<string>, allowed: set<string>)
  {
    f.Given? && f.value in allowed
  }

  /**
   * `->where(column, key)` applied when the key is present: a null key
   * becomes `whereNull`, a value SQL equality (which a null column fails).
   */
  predicate Selects(key: Field<int>, column: Option<Id>)
  {
    match key
    case Absent => true
    case Null => column.None?
    case Given(v) => column.Some? && column.value == v
  }

  /** `name` is an array whose `fr` entry is a non-blank string (`name.fr` is required). */
  predicate NameWithFrench(f: Field<map<string, string>>)
  {
    f.Given? && "fr" in f.value && Trim(f.value["fr"]) != ""
  }

  /** `nullable|exists:table,id`: null, absent, or a key of the table. */
  predicate NullableExists<K>(f: Field<K>, keys: set<K>)
  {
    f.Given? ==> f.value in keys
  }

  /** `required|exists:table,id`. */
  predicate RequiredExists<K>(f: Field<K>, keys: set<K>)
  {
    f.Given? && f.value in keys
  }

  /** `sometimes|exists:table,id`: when present, a key of the table. */
  predicate SometimesExists<K>(f: Field<K>, keys: set<K>)
  {
    f.Has() ==> f.Given? && f.value in keys
  }

  /** `nullable|integer|min:lo`. */
  predicate NullableMin(f: Field<int>, lo: int)
  {
    f.Given? ==> f.value >= lo
  }

  /** An uploaded file: client name, the extension guessed from its content, MIME type and size. */
  datatype UploadedFile = UploadedFile(clientName: string, extension: string, mimeType: string, size: nat)

  /** `mimes:...|max:kb`: the guessed extension is listed and the size is at most `kb` kilobytes. */
  predicate FileRule(f: UploadedFile, extensions: set<string>, kb: nat)
  {
    f.extension in extensions && f.size <= kb * 1024
  }

  /** `required|file|mimes:...|max:kb`. */
  predicate RequiredFile(f: Field<UploadedFile>, extensions: set<string>, kb: nat)
  {
    f.Given? && FileRule(f.value, extensions, kb)
  }

  /** `nullable|...` on a file: when one is sent it must satisfy the rule. */
  predicate OptionalFile(f: Field<UploadedFile>, extensions: set<string>, kb: nat)
  {
    f.Given? ==> FileRule(f.value, extensions, kb)
  }

  /**
   * `strip_tags(trim(...))` applied to the entries of the listed locales that
   * are set; every other entry is kept as sent.
   */
  function StripLocales(t: map<string, string>, locales: set<string>, strip: string -> string): (r: map<string, string>)
    ensures r.Keys == t.Keys
    ensures forall l :: l in t && l !in locales ==> r[l] == t[l]
    ensures forall l :: l in t && l in locales ==> r[l] == strip(Trim(t[l]))
  {
    map l | l in t :: if l in locales then strip(Trim(t[l])) else t[l]
  }
}
