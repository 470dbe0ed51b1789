/** UploadFileService: a user's pending package upload is one blob in the
    uploads folder of the file-storage collaborator, and a user's upload
    progress is one entry of the cache collaborator, under the key
    "upload:" + user key. */
module UploadService {
  import opened Wrappers
  import opened Int32
  import opened ProgressDetails
  import opened RequestBody

  /** The two exceptions the service throws on a bad argument. */
  datatype ArgumentError =
    | ArgumentException(message: string, paramName: string)
    | ArgumentNullException(paramName: string)

  const UserKeyRequired: ArgumentError := ArgumentException("A user key is required.", "userKey")

  /** The application's folder and file-name constants (their source file is
      not part of this model): uploads live in "uploads", and a file name is
      the user key followed by the package extension. */
  const UploadsFolderName: string := "uploads"
  const NuGetPackageFileExtension: string := ".nupkg"

  /** The decimal digits of a natural number, invariant culture. */
  function NatText(n: nat): (s: string)
    ensures |s| >= 1
    ensures forall i :: 0 <= i < |s| ==> '0' <= s[i] <= '9'
    ensures |s| == 1 <==> n < 10
  {
    if n < 10 then [Digit(n)] else NatText(n / 10) + [Digit(n % 10)]
  }

  function Digit(d: nat): (c: char)
    requires d < 10
    ensures '0' <= c <= '9'
  {
    ('0' as int + d) as char
  }

  /** `userKey.ToString(CultureInfo.InvariantCulture)`. */
  function IntText(n: int): (s: string)
    ensures |s| >= 1 && (s[0] == '-' <==> n < 0)
  {
    if n < 0 then "-" + NatText(-n) else NatText(n)
  }

  lemma {:induction false} NatTextInjective(a: nat, b: nat)
    requires NatText(a) == NatText(b)
    ensures a == b
  {
    if a >= 10 && b >= 10 {
      var s := NatText(a);
      assert s[..|s| - 1] == NatText(a / 10) && s[|s| - 1] == Digit(a % 10);
      assert s[..|s| - 1] == NatText(b / 10) && s[|s| - 1] == Digit(b % 10);
      NatTextInjective(a / 10, b / 10);
    }
  }

  lemma IntTextInjective(a: int, b: int)
    requires IntText(a) == IntText(b)
    ensures a == b
  {
    if a < 0 && b < 0 {
      assert IntText(a)[1..] == NatText(-a) && IntText(b)[1..] == NatText(-b);
      NatTextInjective(-a, -b);
    } else {
      NatTextInjective(a, b);
    }
  }

  /** `String.Format(UploadFileNameTemplate, userKey, NuGetPackageFileExtension)`. */
  function BuildFileName(userKey: int32): (name: string)
    ensures |name| > |NuGetPackageFileExtension|
    ensures name[|name| - |NuGetPackageFileExtension|..] == NuGetPackageFileExtension
  {
    IntText(userKey) + NuGetPackageFileExtension
  }

  /** Distinct users never address the same upload blob. */
  lemma BuildFileNameInjective(a: int32, b: int32)
    requires BuildFileName(a) == BuildFileName(b)
    ensures a == b
  {
    var n := |NuGetPackageFileExtension|;
    assert BuildFileName(a)[..|BuildFileName(a)| - n] == IntText(a);
    assert BuildFileName(b)[..|BuildFileName(b)| - n] == IntText(b);
    IntTextInjective(a, b);
  }

  /** `GetFileUploadCacheKey`: the user key behind a fixed prefix. */
  function CacheKey(userKey: string): (key: string)
    ensures |key| == |"upload:"| + |userKey|
    ensures key[..|"upload:"|] == "upload:" && key[|"upload:"|..] == userKey
  {
    "upload:" + userKey
  }

  /** Prefixing is injective, so distinct users never share a cache entry. */
  lemma CacheKeyInjective(a: string, b: string)
    requires CacheKey(a) == CacheKey(b)
    ensures a == b
  {
    assert a == CacheKey(a)[|"upload:"|..];
  }

  /** The `userKey < 1` guard shared by the three file operations. */
  function CheckUserKey(userKey: int32): (r: Outcome<ArgumentError>)
    ensures r.Fail? <==> userKey < 1
    ensures r.Fail? ==> r.error.ArgumentException? && r.error.paramName == "userKey"
  {
    if userKey < 1 then Fail(UserKeyRequired) else Pass
  }

  /** The guards of `SaveUploadFile`, in order: the user key first, then the
      stream (None stands for a null stream). */
  function CheckSaveArguments(userKey: int32, packageFileStream: Option<seq<byte>>): (r: Outcome<ArgumentError>)
    ensures userKey < 1 ==> r == Fail(UserKeyRequired)
    ensures userKey >= 1 ==> (r.Fail? <==> packageFileStream.None?)
    ensures userKey >= 1 && r.Fail? ==> r.error == ArgumentNullException("packageFileStream")
  {
    if userKey < 1 then Fail(UserKeyRequired)
    else if packageFileStream.None? then Fail(ArgumentNullException("packageFileStream"))
    else Pass
  }

  /** One call of the file-storage collaborator, as (folder, name). */
  datatype StorageRequest =
    | SaveFile(folder: string, fileName: string)
    | GetFile(folder: string, fileName: string)
    | DeleteFile(folder: string, fileName: string)

  /** Where a user's upload lives in file storage. */
  function UploadBlob(userKey: int32): (string, string)
  {
    (UploadsFolderName, BuildFileName(userKey))
  }

  class UploadFileService {
    /** The file-storage collaborator's blobs, by (folder, name). */
    var files: map<(string, string), seq<byte>>
    /** Every call made to the file-storage collaborator, in order. */
    ghost var storageRequests: seq<StorageRequest>
    /** The cache collaborator (its one-day expiry is not modelled). */
    var cache: map<string, Details>
    /** Every record `SetProgressDetails` has published, per user key, in
        order. */
    ghost var published: map<string, seq<Details>>

    constructor (files: map<(string, string), seq<byte>>, cache: map<string, Details>)
      ensures this.files == files && this.cache == cache
      ensures storageRequests == [] && published == map[]
    {
      this.files := files;
      this.cache := cache;
      storageRequests := [];
      published := map[];
    }

    /** The records published so far for `userKey`, oldest first. */
    ghost function PublishedFor(userKey: string): seq<Details>
      reads this
    {
      if userKey in published then published[userKey] else []
    }

    /** What `GetProgressDetails(userKey)` answers. */
    function ProgressOf(userKey: string): Option<Details>
      reads this
    {
      if CacheKey(userKey) in cache then Some(cache[CacheKey(userKey)]) else None
    }

    method DeleteUploadFile(userKey: int32) returns (r: Outcome<ArgumentError>)
      modifies this`files, this`storageRequests
      ensures r == CheckUserKey(userKey)
      ensures r.Fail? ==> files == old(files) && storageRequests == old(storageRequests)
      ensures r.Pass? ==> storageRequests == old(storageRequests) + [DeleteFile(UploadsFolderName, BuildFileName(userKey))]
      ensures r.Pass? ==> files == old(files) - {UploadBlob(userKey)}
    {
      r := CheckUserKey(userKey);
      if r.Fail? {
        return;
      }
      var uploadFileName := BuildFileName(userKey);
      storageRequests := storageRequests + [DeleteFile(UploadsFolderName, uploadFileName)];
      files := files - {(UploadsFolderName, uploadFileName)};
    }

    /** Returns the stored stream, or None (null) when there is no such blob. */
    method GetUploadFile(userKey: int32) returns (r: Result<Option<seq<byte>>, ArgumentError>)
      modifies this`storageRequests
      ensures r.Failure? <==> userKey < 1
      ensures r.Failure? ==> r.error == UserKeyRequired && storageRequests == old(storageRequests)
      ensures r.Success? ==> storageRequests == old(storageRequests) + [GetFile(UploadsFolderName, BuildFileName(userKey))]
      ensures r.Success? ==> r.value == if UploadBlob(userKey) in files then Some(files[UploadBlob(userKey)]) else None
    {
      var guard := CheckUserKey(userKey);
      if guard.Fail? {
        return Failure(guard.error);
      }
      var uploadFileName := BuildFileName(userKey);
      storageRequests := storageRequests + [GetFile(UploadsFolderName, uploadFileName)];
      var blob := (UploadsFolderName, uploadFileName);
      r := Success(if blob in files then Some(files[blob]) else None);
    }

    method SaveUploadFile(userKey: int32, packageFileStream: Option<seq<byte>>) returns (r: Outcome<ArgumentError>)
      modifies this`files, this`storageRequests
      ensures r == CheckSaveArguments(userKey, packageFileStream)
      ensures r.Fail? ==> files == old(files) && storageRequests == old(storageRequests)
      ensures r.Pass? ==> storageRequests == old(storageRequests) + [SaveFile(UploadsFolderName, BuildFileName(userKey))]
      ensures r.Pass? ==> files == old(files)[UploadBlob(userKey) := packageFileStream.value]
    {
      r := CheckSaveArguments(userKey, packageFileStream);
      if r.Fail? {
        return;
      }
      var uploadFileName := BuildFileName(userKey);
      storageRequests := storageRequests + [SaveFile(UploadsFolderName, uploadFileName)];
      files := files[(UploadsFolderName, uploadFileName) := packageFileStream.value];
    }

    /** Answers what the last `SetProgressDetails` for this user stored,
        or None (null) when nothing is cached. */
    method GetProgressDetails(userKey: string) returns (progressDetails: Option<Details>)
      ensures progressDetails == ProgressOf(userKey)
      ensures progressDetails.Some? <==> CacheKey(userKey) in cache
      ensures progressDetails.Some? ==> progressDetails.value == cache["upload:" + userKey]
    {
      var cacheKey := CacheKey(userKey);
      progressDetails := if cacheKey in cache then Some(cache[cacheKey]) else None;
    }

    /** Removing a user's progress leaves every other user's progress as it was. */
    method RemoveProgressDetails(userKey: string)
      modifies this`cache
      ensures cache == old(cache) - {CacheKey(userKey)}
      ensures ProgressOf(userKey) == None
      ensures forall other :: other != userKey ==> ProgressOf(other) == old(ProgressOf(other))
    {
      var cacheKey := CacheKey(userKey);
      cache := cache - {cacheKey};
      forall other | other != userKey
        ensures ProgressOf(other) == old(ProgressOf(other))
      {
        if CacheKey(other) == cacheKey {
          CacheKeyInjective(other, userKey);
        }
      }
    }

    /** Publishing a user's progress replaces that user's record (the last
        writer wins) and leaves every other user's progress as it was. */
    method SetProgressDetails(userKey: string, progressDetails: Details)
      modifies this`cache, this`published
      ensures cache == old(cache)[CacheKey(userKey) := progressDetails]
      ensures published == old(published)[userKey := old(PublishedFor(userKey)) + [progressDetails]]
      ensures ProgressOf(userKey) == Some(progressDetails)
      ensures forall other :: other != userKey ==> ProgressOf(other) == old(ProgressOf(other))
    {
      var cacheKey := CacheKey(userKey);
      cache := cache[cacheKey := progressDetails];
      published := published[userKey := PublishedFor(userKey) + [progressDetails]];
      forall other | other != userKey
        ensures ProgressOf(other) == old(ProgressOf(other))
      {
        if CacheKey(other) == cacheKey {
          CacheKeyInjective(other, userKey);
        }
      }
    }
  }
}
