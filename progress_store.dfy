/** FileUploadManager: the process-wide map from a key to the most recently
    published progress record. The static concurrent dictionary becomes one
    object whose map field each operation rewrites atomically. */
module ProgressStore {
  import opened Wrappers
  import opened ProgressDetails

  class FileUploadManager {
    var progress: map<string, Details>

    /** What `GetProgressDetails(key)` answers: the record, or null. */
    function Lookup(key: string): Option<Details>
      reads this
    {
      if key in progress then Some(progress[key]) else None
    }

    /** The dictionary starts empty: every key reads as absent. */
    constructor ()
      ensures progress == map[]
      ensures forall key :: Lookup(key) == None
    {
      progress := map[];
    }

    /** Indexer assignment: inserts or replaces (the last writer wins), and no
        other key's entry changes. */
    method SetProgressDetails(key: string, progressDetails: Details)
      modifies this
      ensures progress == old(progress)[key := progressDetails]
      ensures Lookup(key) == Some(progressDetails)
      ensures forall k :: k != key ==> Lookup(k) == old(Lookup(k))
    {
      progress := progress[key := progressDetails];
    }

    /** `TryGetValue`, with null when the key is absent. */
    method GetProgressDetails(key: string) returns (progressDetails: Option<Details>)
      ensures progressDetails == Lookup(key)
      ensures progressDetails.Some? <==> key in progress
      ensures progressDetails.Some? ==> progressDetails.value == progress[key]
    {
      if key in progress {
        progressDetails := Some(progress[key]);
      } else {
        progressDetails := None;
      }
    }

    /** `TryRemove`: deletes the entry if present; on an absent key the map
        is unchanged and nothing is raised. */
    method RemoveProgressDetails(key: string)
      modifies this
      ensures progress == old(progress) - {key}
      ensures Lookup(key) == None
      ensures key !in old(progress) ==> progress == old(progress)
      ensures forall k :: k != key ==> Lookup(k) == old(Lookup(k))
    {
      progress := progress - {key};
    }
  }
}
