# Attendance by face recognition: registry, dedup ledger and match wrapper

A Dafny model of the core of a small attendance app. Members enrol with a
photo, from which a face descriptor is extracted. A polling loop detects faces
in the camera stream, matches each one against the enrolled members, and logs
an attendance record for the member it recognises. A check-in is suppressed
when the same member already has a record on the same UTC day that is less
than one hour old.

What is modelled:

- the member registry of the storage service: `saveMember` (an upsert keyed by
  id) and `deleteMember` (a filter on id);
- the attendance ledger: `logAttendance` (the dedup window, then a new record
  at the front of the list) and `clearData`;
- the wrapper `FaceService.findMatch` around face-api.js's `FaceMatcher`;
- the outcome branching of one pass of the check-in loop in `App.tsx`.

Storage is an in-memory value holding two sequences (`Types.Store`). Each
storage operation becomes a pure function from the old collection to the new
one. Time is an integer count of milliseconds. `dateStr` is the UTC day
number `t / 86400000`, which is what the code's
`now.toISOString().split('T')[0]` determines. The `crypto.randomUUID()` record
id arrives as a parameter. `FaceMatcher` is a function parameter: any function
from the labelled descriptors, the threshold and the query to a label and a
distance.

Files:

- `wrappers.dfy` (`Wrappers`) holds `Option`, for the code's `null` and
  `undefined` results.
- `seqs.dfy` (`Seqs`) holds `filter` and `findIndex` over sequences, the
  subsequence relation, and lemmas about them.
- `types.dfy` (`Types`) holds `Member`, `AttendanceRecord`, `Store`, and the id
  tests.
- `storage.dfy` (`StorageService`) holds the registry and the ledger.
- `face.dfy` (`FaceService`) holds `findMatch`.
- `checkin.dfy` (`CheckIn`) holds one pass of the check-in loop.

Two points about the code that shape the model:

- The day key is the UTC date (`toISOString`), not local time, so 23:50 and
  00:10 UTC fall on different days.
- Choosing the nearest face, comparing against the threshold and breaking ties
  are left to `FaceMatcher`, which the model treats as an oracle; nothing is
  proved about distances.

## Model

| member | source | states |
|---|---|---|
| `StorageService.SaveMember` | services/storageService.ts:19-28 | If the id is already present, the result is the old list with the first member holding that id replaced by the new member; the length and every other position are unchanged. If the id is new, the result is the old list with the member appended. |
| `StorageService.SaveMemberKeepsIdsUnique` | services/storageService.ts:20-27 | If ids are pairwise distinct before a save, they are distinct after it. The saved member is in the list and is the only entry with its id. |
| `StorageService.SaveMemberThenLookup` | services/storageService.ts:21-26 | After a save, the first entry with the member's id is the saved member. |
| `StorageService.SaveMemberIdempotent` | services/storageService.ts:19-28 | Saving the same member twice gives the same list as saving it once. |
| `StorageService.DeleteMember` | services/storageService.ts:30-33 | No remaining member has the id. Every member with another id is kept, in the original relative order (a subsequence). The length is exactly the number of members with another id. An absent id leaves the list unchanged. |
| `StorageService.DeleteMemberUnique` | services/storageService.ts:31 | With distinct ids, deleting removes exactly one member when the id is present and none when it is absent, and the ids stay distinct. |
| `StorageService.DeleteAfterSave` | services/storageService.ts:19-33 | Deleting a member's id after saving that member gives the same list as deleting the id from the original list. |
| `StorageService.DateKey` | services/storageService.ts:48 | The day key of an instant is the UTC day that contains it. |
| `StorageService.LogAttendance` | services/storageService.ts:45-70 | Returns no record exactly when some record has the same member id, the same day key as `now`, and an age `now - timestamp` strictly under 3,600,000 ms; in that case the list is unchanged. Otherwise it returns a record carrying the fresh id, the member's id and name, `now` and `now`'s day key, and the new list is that record followed by the old list. |
| `StorageService.LogAttendanceKeepsLedger` | services/storageService.ts:51-67 | With a fresh id and a clock that does not run backwards, the ledger stays well formed: ids distinct, each day key matches its timestamp, newest first, and no two records of one member on one day less than an hour apart. |
| `StorageService.AdmittedThenRefused` | services/storageService.ts:51-57 | After an admission, a second attempt for the same member less than an hour later on the same UTC day is refused and changes nothing. |
| `StorageService.NonBlockingRecordsAdmit` | services/storageService.ts:52-54 | A record exactly one hour old, a record on another day, or a record of another member never blocks. When every record is of one of these kinds, the check-in is admitted. |
| `StorageService.DedupScenario` | services/storageService.ts:51-69 | Check-ins at t0, t0+30 min (same day) and t0+61 min give admitted, refused, admitted. |
| `StorageService.MidnightScenario` | services/storageService.ts:48-54 | Check-ins at 23:50 and at 00:10 the next UTC day are both admitted, although they are only 20 minutes apart. |
| `StorageService.ClearData` | services/storageService.ts:72-75 | After clearing, the member list and the attendance list are both empty. |
| `StorageService.AfterClearData` | services/storageService.ts:72-75 | After clearing, a check-in is admitted and the ledger holds just the new record, and saving a member gives a registry holding just that member. |
| `FaceService.ValidMembers` | services/faceService.ts:68 | The members passed to matching are exactly those holding a descriptor, in registry order: every one of them holds a descriptor, every member with a descriptor is included, the result is a subsequence, and its length is the count of such members. |
| `FaceService.Labelled` | services/faceService.ts:72-77 | The matcher is built from one entry per valid member, in the same order, labelled with the member's id and holding that member's descriptor. |
| `FaceService.FindMatch` | services/faceService.ts:64-88 | An empty list, or a list where no member holds a descriptor, gives no result. A result's member is in the list and holds a descriptor. There is a result exactly when the matcher's label is not `unknown` and some member with a descriptor has that id. The result's member is the first such member, and its distance is the matcher's distance. |
| `FaceService.FirstValidWithId` | services/faceService.ts:68-83 | Searching the valid members for an id finds the first member of the whole list that holds a descriptor and has that id. It finds nothing exactly when no such member exists. |
| `FaceService.LabelsAreValidIds` | services/faceService.ts:68-77 | A label is among those the matcher is built from exactly when some member holding a descriptor has that id. |
| `FaceService.OnlyTheOneQuestionMatters` | services/faceService.ts:8-84 | The matcher is consulted only about the valid members' (id, descriptor) list, with threshold 0.5. Two matchers that answer that one question alike give the same result. With no valid member, the matcher does not matter. |
| `FaceService.NoDescriptorNeverMatched` | services/faceService.ts:82-87 | Whatever the matcher answers, a member without a descriptor is never returned, and the label `unknown` gives no result. |
| `CheckIn.ProcessFrame` | App.tsx:286-306 | No detection gives "no face". A detection with no match gives "unknown face". A match whose check-in is refused gives "already registered" for a member with a blocking record. For a match, the check-in is admitted exactly when no record blocks the member `FindMatch` returned; the new record carries the fresh id, that member's id and name, `now` and `now`'s day key, and goes at the front of the ledger. Otherwise the outcome is "already registered" for that member. Only an admission changes the store, and the registry never changes. |
| `CheckIn.NoDoubleAdmission` | App.tsx:289-299 | Two frames less than an hour apart on one UTC day that match the same member admit that member at most once. |
| `CheckIn.AnaScenario` | App.tsx:286-303 | Enrolling "Ana" and showing a face the matcher names as her gives an admission with the name "Ana". Showing it again at once gives "already registered". Showing a face the matcher calls unknown gives "unknown face". |
| `Seqs.Filter` | services/storageService.ts:31 | A filter keeps exactly the elements that pass, in order. The result is a subsequence, every element in it passes, every passing element is in it, and its length is the number of passing elements. |
| `Seqs.FirstWhere` | services/storageService.ts:21 | `findIndex` returns no index exactly when no element passes. Otherwise it returns the first passing position. |

## Left out

- Persistence through `localStorage` and the JSON round trip are left out (services/storageService.ts:10-16 and 36-42). This includes the fall-back to an empty list when parsing fails. Storage is an in-memory value instead.
- The ISO-8601 encoding of timestamps is assumed to be lossless at millisecond precision. The `YYYY-MM-DD` rendering of the day is replaced by the UTC day number, which it determines one-to-one.
- `crypto.randomUUID()` is replaced by a fresh-id parameter. Freshness is an assumption of `LogAttendanceKeepsLedger` only.
- `FaceMatcher.findBestMatch` is left out: the Euclidean distance, the threshold comparison and the tie-break among equal distances. It is a library call over floating point, modelled as an arbitrary function.
- The conversion of stored descriptors to `Float32Array`, which rounds to single precision, is not modelled. Descriptors are sequences of reals.
- Descriptors are not checked to have 128 components. The code does not check their length either, and the length only matters inside the matcher.
- `FaceService.ValidMembers`: `faceDescriptor` is typed as `number[] | undefined`, so "present and an array" becomes `Some`. A stored non-array value, which only a corrupted store could hold, is not represented.
- `loadModels`, `getDescriptorFromImage` and `detectFaceInVideo` are left out. They load neural networks over the network and run them on images. In `CheckIn.ProcessFrame`, the detection result is a parameter.
- `CheckIn.ProcessFrame`: exceptions from detection or matching, which the loop catches and logs, are not modelled. The 500 ms polling interval, the status texts, `alert` and the screen refresh are left out as UI.
- `CheckIn.ProcessFrame` matches against the registry in storage. The screen matches against its own copy, which it reloads from storage after every change.
- The CSV export and the views in `App.tsx` are UI and formatting. `services/geminiService.ts` is a network client. Neither is modelled.
- `getMembers` and `getAttendance` only read storage. Their contents are the sequences in `Types.Store`.
