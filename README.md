# Benthic activity detection and its helper scripts, in Dafny

This project models the video-analysis scripts of a seafloor-monitoring data
app and proves properties of the model. Their centre is the benthic
activity detector, which exists in two near-identical versions (v4 and v5).
Per video frame it does four things:

- it filters connected components into blobs by area, aspect ratio and circularity;
- it couples dark "shadow" blobs with bright "reflection" blobs by greedy nearest-pair matching;
- it assembles the frame's blob list, dropping standard blobs within 20 px of one already accepted;
- it associates blobs with live tracks.

Association is greedy and one-to-one. A track that is not matched ages by
one frame and starts resting at its last known position. While it rests,
blobs inside its rest zone count at half their distance. A track is dropped
once its skip budget is spent. After the last frame every live track is
validated on length, displacement and a speed band.

Around that engine the project also models smaller pieces:

- frame selection and the per-pixel mapping of the background-subtraction script;
- the evenly spaced sample indices and quality ladders of the video pre-screen;
- filename-to-hour parsing and the command lines of the batch driver;
- the "original video" filter of the YOLO batch script;
- the blob tally and the zone split of the motion analysis;
- species selection and the wide-to-long transform of the eDNA haplotype bubble chart.

Modules follow the scripts:

| file | module | models |
|---|---|---|
| wrappers.dfy | Wrappers | Option and Result |
| greedy.dfy | GreedyMatch | pair enumeration, stable sort by distance, greedy one-to-one acceptance (shared by coupling and association) |
| sampling.dfy | Sampling | Python's `int()`, `//`, `%` and every-Nth-frame index selection |
| blobs.dfy | Blobs | `Blob`, `DetectionParams`, `extract_blobs_from_binary`, `find_coupled_blobs`, `detect_blobs` |
| tracks.dfy | Tracks | the track state as a value, `is_blob_in_rest_zone`, association as functions, the tracking-loop invariant |
| metrics.dfy | TrackMetrics | the `Track` properties, the rest-period count, `validate_track` |
| track_manager.dfy | TrackManager | the `Track` class and the in-place `match_blobs_to_tracks` and new-track loop |
| tracking_v4.dfy | VideoTracking | the frame loop of v4's `process_video` |
| benthic_v5.dfy | BenthicV5 | v5's `compute_background` sampling and its every-Nth-frame processing loop |
| background_subtraction.dfy | BackgroundSubtraction | `load_frames`, `compute_average_background`, `subtract_background` |
| video_prescreen.dfy | VideoPrescreen | `sample_frame_indices`, the classifiers, the sampling loop of `prescreen_video` |
| py_strings.dfy | PyStrings | the Python string operations the filename code uses |
| batch_process.dfy | BatchProcess | `extract_time_from_filename` and the two command builders |
| yolo_videos.dfy | YoloVideos | `is_original_video`, the listing loop and the output names |
| motion_analysis.dfy | MotionAnalysis | the tally of `detect_organisms` and the zone split of the heatmap |
| haplotype_chart.dfy | HaplotypeChart | cleaning, `select_top_species`, `transform_to_long_format`, `calculate_bubble_size` |

The image operations happen before the model starts: thresholding,
morphology, connected components and contour perimeters. Each frame is
therefore given as its component records: area, bounding box, centroid and
perimeter.

Euclidean distances are compared through their squares, on exact reals:

- `d <= t` becomes `d*d <= t*t`;
- halving a distance quarters its square;
- sorting by distance and by squared distance give the same order.

The tracker is the same algorithm in v4 and v5. It is modelled once and
cited at its v4 lines. The v5-only parts have their own module.

`Track` is a class whose fields the methods update in place, as the script
does. Its fields are also available as a value, `TrackView`. The functions
of `Tracks` specify the methods of `TrackManager` through that value, and
the loop invariant of the tracker is proved on it.

Two consequences of the code are worth stating:

- **Single-detection tracks.** A track with a single detection has
  displacement 0 and speed 0. It is valid exactly when min_track_length
  <= 1, min_displacement <= 0 and 0 lies in the speed band
  (`TrackMetrics.SingleDetection`). Under the default thresholds of both
  versions it is invalid (`TrackMetrics.SingleDetectionInvalidByDefault`).
- **The background-subtraction command.** It has ten elements
  (`BatchProcess.BackgroundSubtractionCommand`).

In the paths below, `cv_scripts/benthic_activity_detection_v4.py` is the v4 detector.

## Model

| member | source | states |
|---|---|---|
| GreedyMatch.RowCandsIff | cv_scripts/benthic_activity_detection_v4.py:340-344 | a pair is among one row's candidates exactly when it indexes that row, its key is the entry and the entry is within the limit |
| GreedyMatch.CandidatesIff | cv_scripts/benthic_activity_detection_v4.py:340-344 | the enumeration holds exactly the (row, column) pairs of the matrix whose entry is within the limit |
| GreedyMatch.InsertPerm | cv_scripts/benthic_activity_detection_v4.py:346 | inserting into the sorted list adds exactly the inserted pair (multiset) |
| GreedyMatch.InsertSorted | cv_scripts/benthic_activity_detection_v4.py:346 | inserting into a list sorted by distance keeps it sorted |
| GreedyMatch.SortByKeySortedPerm | cv_scripts/benthic_activity_detection_v4.py:346 | the sort orders the pairs by distance and is a permutation of them |
| GreedyMatch.InsertStable | cv_scripts/benthic_activity_detection_v4.py:346 | inserting a pair that comes after every listed pair in row-major order keeps equal distances in row-major order |
| GreedyMatch.SortByKeyStable | cv_scripts/benthic_activity_detection_v4.py:346 | the sort is stable: on a row-major list, pairs at equal distance stay in row-major order |
| GreedyMatch.CandidatesRowMajor | cv_scripts/benthic_activity_detection_v4.py:340-344 | the nested loop lists the pairs in strictly increasing row-major order |
| GreedyMatch.SortedCandidatesStable | cv_scripts/benthic_activity_detection_v4.py:340-346 | the sorted pairs ascend by distance, and pairs at equal distance are offered in row-major order |
| GreedyMatch.GreedyMatching | cv_scripts/benthic_activity_detection_v4.py:349-353 | greedy acceptance is one-to-one, avoids rows and columns already claimed, takes only offered pairs, and is maximal: every offered pair shares a row or column with an accepted one |
| GreedyMatch.OneToOneCard | cv_scripts/benthic_activity_detection_v4.py:349-353 | a one-to-one list of k pairs claims exactly k rows and k columns |
| GreedyMatch.PartnerOf | cv_scripts/benthic_activity_detection_v4.py:522-545 | the partner of a column is a row paired with it, and there is none exactly when the column is unclaimed |
| GreedyMatch.AcceptGreedily | cv_scripts/benthic_activity_detection_v4.py:349-353 | the loop with the matched sets accepts the greedy matching, and the sets are its rows and columns |
| GreedyMatch.EnumeratePairs | cv_scripts/benthic_activity_detection_v4.py:340-344 | the nested loop builds the row-major enumeration of the entries within the limit |
| Sampling.TruncTowardZero | cv_scripts/background_subtraction.py:51 | int() of a float rounds toward zero: down from above zero, up from below, and int(-x) == -int(x) |
| Sampling.FloorDiv | cv_scripts/motion_analysis.py:254 | Python's // rounds toward minus infinity, for either sign of the divisor |
| Sampling.FloorMod | cv_scripts/background_subtraction.py:75 | Python's % completes // (a == b*(a//b) + a%b) and takes the sign of the divisor |
| Sampling.FloorDivPositive | cv_scripts/benthic_activity_detection_v5.py:204-206 | for a positive divisor Python's // and % agree with Euclidean division |
| Sampling.SampleIdx | cv_scripts/background_subtraction.py:69-79 | every selected index is below the number of frames read |
| Sampling.SampleIdxSpec | cv_scripts/background_subtraction.py:75-77 | the selected indices increase strictly, are all multiples of the rate, and include every multiple below the frame count |
| Sampling.SampleIdxPrefix | cv_scripts/benthic_activity_detection_v5.py:216-228 | stopping the read early selects a prefix of the indices of the whole clip |
| Blobs.AcceptComponent | cv_scripts/benthic_activity_detection_v4.py:273-306 | a component is accepted exactly when its area is in [min_area, max_area], its aspect ratio at most the ceiling and its circularity at least the floor; the blob it becomes has confidence equal to its circularity |
| Blobs.KeptIff | cv_scripts/benthic_activity_detection_v4.py:265-309 | a blob is extracted exactly when some component passes the three filters and becomes it; no more blobs than components |
| Blobs.KeptShape | cv_scripts/benthic_activity_detection_v4.py:273-306 | every extracted blob is in the area range, under the aspect ceiling and over the circularity floor, has confidence = circularity, the requested type and frame, and no partner |
| Blobs.SingleComponentKept | cv_scripts/benthic_activity_detection_v4.py:297-307 | a component that passes yields one blob with its bbox (x, y, w, h) and centroid |
| Blobs.OutOfAreaRejected | cv_scripts/benthic_activity_detection_v4.py:274-275 | a component outside the area range yields no blob, whatever its shape |
| Blobs.ZeroPerimeterRejected | cv_scripts/benthic_activity_detection_v4.py:285-295 | no contour or a zero perimeter gives circularity 0, rejected by a positive floor |
| Blobs.ExtractBlobs | cv_scripts/benthic_activity_detection_v4.py:252-309 | the label loop returns the accepted blobs in label order, each within the three filters, with confidence = circularity |
| Blobs.CoupledListAt | cv_scripts/benthic_activity_detection_v4.py:356-373 | coupled blob k is the coupled version of the dark blob of accepted pair k |
| Blobs.UnclaimedCount | cv_scripts/benthic_activity_detection_v4.py:376-377 | leaving out k claimed indices leaves exactly len - k blobs |
| Blobs.UnclaimedMembers | cv_scripts/benthic_activity_detection_v4.py:376-377 | every uncoupled blob is one of the inputs |
| Blobs.CouplingPartition | cv_scripts/benthic_activity_detection_v4.py:325-377 | coupling is one-to-one within coupling_distance, each pair indexes both lists with its key the squared centroid distance, len(coupled)+len(uncoupled_dark) == len(dark) and likewise for bright; with either list empty nothing is coupled and both lists come back unchanged |
| Blobs.CoupledListShape | cv_scripts/benthic_activity_detection_v4.py:357-373 | a coupled blob copies the dark blob's frame, bbox and centroid, has type coupled, coupled_with = the bright index, and confidence = dark confidence times coupling_boost |
| Blobs.UncoupledFromInputs | cv_scripts/benthic_activity_detection_v4.py:376-377 | the uncoupled dark and bright lists are drawn from the dark and bright inputs |
| Blobs.FindCoupledBlobs | cv_scripts/benthic_activity_detection_v4.py:312-379 | find_coupled_blobs returns the coupled list of the greedy pairs and the unclaimed dark and bright blobs in order, partitioning both inputs; with either list empty, nothing coupled |
| Blobs.AddStandardSpec | cv_scripts/benthic_activity_detection_v4.py:435-447 | the assembled list keeps what was accepted before; each standard blob added is at least 20 px from every blob before it, earlier standard blobs included; each standard blob left out is within 20 px of an output blob |
| Blobs.AddStandardMembers | cv_scripts/benthic_activity_detection_v4.py:435-447 | the assembly adds only standard blobs to what was accepted |
| Blobs.CoupledListMembers | cv_scripts/benthic_activity_detection_v4.py:356-373 | every coupled blob has type coupled and the frame of a dark blob |
| Blobs.AppendStandard | cv_scripts/benthic_activity_detection_v4.py:435-447 | the duplicate-dropping loop computes the assembled list |
| Blobs.DetectedBlobsKinds | cv_scripts/benthic_activity_detection_v4.py:408-449 | a frame's blobs all belong to the frame and are never uncoupled bright blobs; with require_coupling no uncoupled dark blob is emitted, without it every uncoupled dark blob is |
| Blobs.DetectBlobs | cv_scripts/benthic_activity_detection_v4.py:382-449 | detect_blobs returns the coupled blobs, then the uncoupled dark ones unless coupling is required, then the standard blobs that are not duplicates |
| Tracks.MatchKey | cv_scripts/benthic_activity_detection_v4.py:496-507 | the association key is non-negative and never exceeds the squared distance to the track's last centroid |
| Tracks.MatchPairsSpec | cv_scripts/benthic_activity_detection_v4.py:503-545 | association is one-to-one within max_distance; the key is smaller than the plain distance only for a resting track whose rest zone holds the blob; it is maximal (a blob and a track within reach are never both unmatched); matched plus unmatched blobs are all the blobs |
| Tracks.UnmatchedSurvivors | cv_scripts/benthic_activity_detection_v4.py:548-563 | the surviving unmatched tracks are indices of the track list |
| Tracks.UnmatchedSurvivorsSpec | cv_scripts/benthic_activity_detection_v4.py:548-563 | the tracks kept from the unmatched ones are exactly those not matched whose incremented counter is within max_skip_frames, in index order |
| Tracks.UnmatchedSurvivorsSound | cv_scripts/benthic_activity_detection_v4.py:548-563 | every kept unmatched track is unmatched and within its skip budget |
| Tracks.UnmatchedSurvivorsComplete | cv_scripts/benthic_activity_detection_v4.py:548-563 | every unmatched track within its skip budget is kept |
| Tracks.UnmatchedSurvivorsAscending | cv_scripts/benthic_activity_detection_v4.py:548-563 | the kept unmatched tracks come in increasing index order |
| Tracks.MatchedIndices | cv_scripts/benthic_activity_detection_v4.py:566-567 | the matched indices are indices of the track list |
| Tracks.MatchedIndicesSpec | cv_scripts/benthic_activity_detection_v4.py:566-567 | the matched tracks appended are exactly the matched set below the track count, in increasing order |
| Tracks.KeptOrder | cv_scripts/benthic_activity_detection_v4.py:548-567 | the returned order indexes the input tracks |
| Tracks.KeptOrderSpec | cv_scripts/benthic_activity_detection_v4.py:548-567 | a track is returned exactly when it was matched or survives its miss, and none is returned twice |
| Tracks.NewViews | cv_scripts/benthic_activity_detection_v4.py:757-773 | one new track per unmatched blob |
| Tracks.RecordedValid | cv_scripts/benthic_activity_detection_v4.py:527-542 | recording a blob at a later frame keeps a track valid, grows each parallel list by one and keeps the earlier entries |
| Tracks.MissedValid | cv_scripts/benthic_activity_detection_v4.py:548-563 | a miss keeps a track valid, leaves its detections alone, adds one to the counter, and makes it rest exactly when it already rested or survives with a known position |
| Tracks.NewTrackCannotRest | cv_scripts/benthic_activity_detection_v4.py:757-773 | a new track is valid, and without a known position it never starts resting and gets no rest ROI, however many frames it misses |
| Tracks.MissedTimesKeepsPosition | cv_scripts/benthic_activity_detection_v4.py:552-562 | a track without a known position keeps none and never rests over any number of misses, its counter growing by one per miss |
| Tracks.SkipBudget | cv_scripts/benthic_activity_detection_v4.py:550-552 | from a fresh detection a track survives m consecutive misses exactly when m <= max_skip_frames |
| Tracks.KeptViewsInv | cv_scripts/benthic_activity_detection_v4.py:465-571 | association keeps every live track's invariant for the new frame and keeps track ids distinct |
| Tracks.NewViewsInv | cv_scripts/benthic_activity_detection_v4.py:757-773 | the tracks started in a frame are valid and numbered consecutively from next_track_id |
| Tracks.AppendStateInv | cv_scripts/benthic_activity_detection_v4.py:772-773 | live tracks followed by the new ones keep the loop invariant with the advanced next id |
| Tracks.FrameStepInv | cv_scripts/benthic_activity_detection_v4.py:753-773 | one frame of association and new tracks keeps the tracking-loop invariant, and numbers new tracks past every live one |
| Tracks.NoTracksAllNew | cv_scripts/benthic_activity_detection_v4.py:472-473 | with no active tracks nothing is associated and every blob starts a track |
| Tracks.KeptOrderNoPairs | cv_scripts/benthic_activity_detection_v4.py:475-494 | with no blobs no pair is accepted, and the returned tracks are the survivors of their miss in index order |
| Tracks.NoBlobsAllMiss | cv_scripts/benthic_activity_detection_v4.py:475-494 | with no blobs every track takes a miss |
| Tracks.Run | cv_scripts/benthic_activity_detection_v4.py:738-796 | every state the frame loop reaches satisfies the loop invariant: valid tracks with distinct ids below next_track_id, each counter the frames since its last detection and within the budget |
| Tracks.ActiveCountMeaning | cv_scripts/benthic_activity_detection_v4.py:779-780 | right after a frame, a live track counts as active exactly when it was seen in that frame or rests; the count never exceeds the live tracks |
| Tracks.CountCoupled | cv_scripts/benthic_activity_detection_v4.py:781 | a frame has no more coupled blobs than blobs |
| TrackMetrics.Norm | cv_scripts/benthic_activity_detection_v4.py:101 | the square root is non-negative and is a root whenever one exists |
| TrackMetrics.PathLength | cv_scripts/benthic_activity_detection_v4.py:93-102 | the summed step lengths are non-negative |
| TrackMetrics.ComputeDisplacement | cv_scripts/benthic_activity_detection_v4.py:93-102 | the accumulator loop computes the displacement, which is non-negative |
| TrackMetrics.RestPeriods | cv_scripts/benthic_activity_detection_v4.py:815 | a track of n detections has at most n - 1 rest periods |
| TrackMetrics.MetricsNonNegative | cv_scripts/benthic_activity_detection_v4.py:93-108 | displacement and average speed are never negative |
| TrackMetrics.SingleDetection | cv_scripts/benthic_activity_detection_v4.py:574-588 | with one centroid, displacement and speed are 0, so validate_track holds exactly when min_track_length <= 1, min_displacement <= 0 and min_speed <= 0 <= max_speed |
| TrackMetrics.SingleDetectionInvalidByDefault | cv_scripts/benthic_activity_detection_v4.py:149-154 | under the v4 and v5 default thresholds a single-detection track is invalid |
| TrackMetrics.DurationAndRests | cv_scripts/benthic_activity_detection_v4.py:815 | over strictly increasing frames the span exceeds the count by at least the rest periods, and equals it exactly when there is none |
| TrackMetrics.TrackDurationAndRests | cv_scripts/benthic_activity_detection_v4.py:110-115 | for a valid track, total_duration >= length + rest periods, with equality to length exactly when there is no rest period |
| TrackMetrics.ConsecutiveFrames | cv_scripts/benthic_activity_detection_v4.py:110-115 | a track seen in k consecutive frames has length k, total_duration k and no rest period |
| TrackMetrics.CouplingRateBounds | cv_scripts/benthic_activity_detection_v4.py:117-122 | coupling_rate is a percentage in [0, 100]: 100 when every detection was coupled, 0 when none was |
| TrackMetrics.ResumeAfterMisses | cv_scripts/benthic_activity_detection_v4.py:527-563 | a track missing m <= max_skip_frames frames survives each miss, keeps its id when matched again, and gains one rest period exactly when m >= 1 |
| TrackMetrics.MissedTimesTrack | cv_scripts/benthic_activity_detection_v4.py:548-552 | misses change neither the id nor the detections nor last_seen_frame |
| TrackMetrics.TwoFrameTrackValid | cv_scripts/benthic_activity_detection_v4.py:574-588 | a blob at (100, 100) then (105, 100) gives length 2, displacement 5, speed 5, valid with floors 2 and 3 and band [0.1, 30] |
| TrackManager.Track.FromBlob | cv_scripts/benthic_activity_detection_v4.py:757-770 | a new track has one entry per list, total_detections 1, coupled_detections 1 exactly for a coupled blob, no known position, and is not yet valid |
| TrackManager.Track.AddPosition | cv_scripts/benthic_activity_detection_v4.py:85-87 | add_position appends the point to position_history and changes nothing else |
| TrackManager.Track.AppendDetection | cv_scripts/benthic_activity_detection_v4.py:527-531 | the five per-detection lists each grow by the new detection, nothing else changes |
| TrackManager.Track.MarkSeen | cv_scripts/benthic_activity_detection_v4.py:532-536 | last_seen_frame and last_known_position are set, the counter is 0, resting and the rest ROI are cleared |
| TrackManager.Track.CountDetection | cv_scripts/benthic_activity_detection_v4.py:540-542 | total_detections grows by one, coupled_detections by one exactly for a coupled blob |
| TrackManager.Track.RecordDetection | cv_scripts/benthic_activity_detection_v4.py:527-542 | the update of a matched track yields its recorded view |
| TrackManager.Track.MissFrame | cv_scripts/benthic_activity_detection_v4.py:549-563 | the update of an unmatched track yields its missed view, and the result says whether the track is kept |
| TrackManager.SurvivorTracksPick | cv_scripts/benthic_activity_detection_v4.py:548-563 | the kept unmatched tracks are the tracks at the surviving indices |
| TrackManager.MatchedTracksPick | cv_scripts/benthic_activity_detection_v4.py:566-567 | the appended matched tracks are the tracks at the matched indices |
| TrackManager.PartialSnoc | cv_scripts/benthic_activity_detection_v4.py:522-545 | accepting one more pair records its blob on its own track and leaves every other track as it was |
| TrackManager.SurvivorsFrame | cv_scripts/benthic_activity_detection_v4.py:548-552 | which unmatched tracks survive depends only on their counters |
| TrackManager.AdjustForRest | cv_scripts/benthic_activity_detection_v4.py:503-507 | the rest-zone loop turns the plain matrix into the adjusted one |
| TrackManager.AgeTrack | cv_scripts/benthic_activity_detection_v4.py:548-563 | one step of the unmatched loop ages track t and reports whether it survives |
| TrackManager.AgeUnmatched | cv_scripts/benthic_activity_detection_v4.py:548-563 | every unmatched track takes a miss, matched ones are untouched, and the kept list is the survivors in index order |
| TrackManager.CollectMatched | cv_scripts/benthic_activity_detection_v4.py:566-567 | the matched tracks are collected in index order |
| TrackManager.AcceptPair | cv_scripts/benthic_activity_detection_v4.py:522-545 | accepting a pair records its blob on its track only |
| TrackManager.RecordAccepted | cv_scripts/benthic_activity_detection_v4.py:522-545 | the greedy loop's matched sets are the rows and columns of the greedy matching, and each matched track has its blob recorded |
| TrackManager.ComposeStep | cv_scripts/benthic_activity_detection_v4.py:522-563 | after the greedy and ageing loops every track is at its step view, with the same survivors the old views give |
| TrackManager.SortedCandidates | cv_scripts/benthic_activity_detection_v4.py:496-520 | the candidate list is the stable distance sort of the adjusted entries within max_distance |
| TrackManager.MatchBlobsToTracks | cv_scripts/benthic_activity_detection_v4.py:465-571 | match_blobs_to_tracks: each track's new state is its step view; the returned tracks are the surviving unmatched ones then the matched ones, each by index; the returned blobs are those no track took, in order |
| TrackManager.KeptTracks | cv_scripts/benthic_activity_detection_v4.py:548-567 | the returned tracks are distinct members of the input with the kept views |
| TrackManager.StartTracks | cv_scripts/benthic_activity_detection_v4.py:757-773 | one fresh track per leftover blob, numbered from next_track_id, none twice |
| TrackManager.ProcessFrame | cv_scripts/benthic_activity_detection_v4.py:753-773 | association then new tracks give the frame step of the old views; the new tracks are fresh and no track occurs twice |
| VideoTracking.TotalCoupledBound | cv_scripts/benthic_activity_detection_v4.py:748-751 | the clip-wide coupled count never exceeds the detections |
| VideoTracking.OverallCouplingRate | cv_scripts/benthic_activity_detection_v4.py:819 | the overall coupling rate is 0 without detections, a percentage in [0, 100], 100 when all and 0 when none were coupled |
| VideoTracking.TallyFrame | cv_scripts/benthic_activity_detection_v4.py:748-751 | the per-blob tally counts the frame's blobs and its coupled blobs |
| VideoTracking.SummaryMeaning | cv_scripts/benthic_activity_detection_v4.py:779-789 | a frame's entry of frame_detection_counts has its frame index, the number of tracks seen or resting, no more than the live tracks, and its blob and coupled counts |
| VideoTracking.RunSnoc | cv_scripts/benthic_activity_detection_v4.py:753-773 | one pass of the frame loop takes the state after frame k-1 to the state after frame k |
| VideoTracking.TotalsSnoc | cv_scripts/benthic_activity_detection_v4.py:748-751 | the clip-wide tallies add each frame's blobs |
| VideoTracking.AdvanceTracks | cv_scripts/benthic_activity_detection_v4.py:753-773 | association and new tracks take the live tracks from their state after frame k-1 to the next |
| VideoTracking.DetectFrame | cv_scripts/benthic_activity_detection_v4.py:744-745 | detect_blobs on frame k gives that frame's blobs |
| VideoTracking.AddTally | cv_scripts/benthic_activity_detection_v4.py:748-751 | the tallies after frame k are those before it plus the frame's |
| VideoTracking.AddCounts | cv_scripts/benthic_activity_detection_v4.py:779-789 | the counts list grows by frame k's summary |
| VideoTracking.TrackFrame | cv_scripts/benthic_activity_detection_v4.py:747-789 | one pass of the frame loop advances every loop variable from its value after frame k-1 to its value after frame k |
| VideoTracking.TrackClip | cv_scripts/benthic_activity_detection_v4.py:724-796 | the frame loop raises ZeroDivisionError exactly when fps is 0 and the clip has a frame (the timestamp frame_idx / fps); otherwise it ends with the live tracks of Run over the detected frames, fresh and distinct objects, one summary per frame, and the clip-wide tallies |
| VideoTracking.ValidateTracks | cv_scripts/benthic_activity_detection_v4.py:804-806 | every live track gets is_valid = validate_track, nothing else changes, and the completed list is the live list |
| VideoTracking.ProcessVideo | cv_scripts/benthic_activity_detection_v4.py:705-819 | fails with "float division by zero" exactly when fps is 0 and the clip has a frame, although duration_seconds is guarded against it; otherwise the validated tracks are the tracks live after the last frame, each marked by validate_track, a dropped track is never validated, and the overall rate is a percentage |
| BenthicV5.EffectiveSampleRate | cv_scripts/benthic_activity_detection_v5.py:203-210 | computing the rate raises exactly when the sampling step is 0, or when the cap is 0 and the naive count exceeds it |
| BenthicV5.EffectiveSampleRatePositive | cv_scripts/benthic_activity_detection_v5.py:204-210 | with positive N and cap the rate is at least N and at least 1: N when total // N fits under the cap, total // cap otherwise |
| BenthicV5.Cap | cv_scripts/benthic_activity_detection_v5.py:225-226 | the frames let in by the safety check number the cap, and at least one |
| BenthicV5.CollectBackgroundFrames | cv_scripts/benthic_activity_detection_v5.py:213-228 | the kept frames are the selected frames in read order, up to the cap, where reading stops |
| BenthicV5.BackgroundFrames | cv_scripts/benthic_activity_detection_v5.py:203-245 | succeeds exactly when the rate is defined, is non-zero or the video is empty, and output_fps_reduction is non-zero; otherwise ZeroDivisionError, the integer message for the rate or the loop's %, the float message for fps / output_fps_reduction; background_frames_used is then min(number of selected indices, cap), and the frames are those at the selected indices, in read order |
| BenthicV5.ProcessedFramesSpec | cv_scripts/benthic_activity_detection_v5.py:306 | processed frame k is the k-th raw frame whose index is a multiple of output_fps_reduction; the raw indices increase, and no multiple is skipped |
| BenthicV5.ProcessRawFrame | cv_scripts/benthic_activity_detection_v5.py:306-347 | a processed raw frame advances the tracks, the next id and the tallies by one processed frame |
| BenthicV5.RawFrameSelected | cv_scripts/benthic_activity_detection_v5.py:306 | raw frame i is the next processed frame when its index is a multiple of the reduction, and is skipped otherwise |
| BenthicV5.RawFrame | cv_scripts/benthic_activity_detection_v5.py:300-366 | one raw frame of the loop is processed, as the next processed frame, exactly when its index is a multiple of the reduction |
| BenthicV5.TrackClipV5 | cv_scripts/benthic_activity_detection_v5.py:296-366 | only multiples of output_fps_reduction are processed, numbered 0, 1, 2, ...; the live tracks are Run over the processed frames; a zero reduction raises on the first frame |
| BenthicV5.ProcessVideoV5 | cv_scripts/benthic_activity_detection_v5.py:296-388 | the validated tracks are the tracks live at the end, each marked by validate_track, and the overall rate is total_coupled / total_detections * 100 over the processed frames (0 without detections), a percentage |
| BackgroundSubtraction.FramesToLoad | cv_scripts/background_subtraction.py:50-56 | frames_to_load is the least of the bounds that apply: the frame count, int(fps * duration) when a duration is set, max_frames when set |
| BackgroundSubtraction.FramesRead | cv_scripts/background_subtraction.py:69-72 | the read loop visits frames_to_load frames unless the video ends first |
| BackgroundSubtraction.LoadFrames | cv_scripts/background_subtraction.py:62-90 | a zero fps raises before the loop (the printed total_frames/fps) and a zero rate on the first frame read, and nothing else raises; otherwise frame_indices are the selected counts of the frames read, the kept frames are the frames at those counts, so loaded_frames == len(frame_indices) |
| BackgroundSubtraction.PixelSumBounds | cv_scripts/background_subtraction.py:114 | a sum of m channel values lies in [0, 255 m] |
| BackgroundSubtraction.AverageBackground | cv_scripts/background_subtraction.py:98-119 | the mean exists exactly when there are frames, with one value per channel |
| BackgroundSubtraction.AverageInRange | cv_scripts/background_subtraction.py:114 | every channel of the mean background lies in [0, 255] |
| BackgroundSubtraction.StaticBackground | cv_scripts/background_subtraction.py:114 | the mean of a clip made of one repeated frame is that frame |
| BackgroundSubtraction.Clip | cv_scripts/background_subtraction.py:149 | np.clip lands in [lo, hi], keeps values inside, and maps values outside to the nearer end |
| BackgroundSubtraction.SubtractPixel | cv_scripts/background_subtraction.py:143-153 | the output is 0 at or below 0, 255 at or above 255, and the truncation of the (shifted) difference in between |
| BackgroundSubtraction.UnchangedPixel | cv_scripts/background_subtraction.py:143-153 | a pixel equal to the background maps to 128 when normalising and to 0 otherwise |
| BackgroundSubtraction.DarkerPixel | cv_scripts/background_subtraction.py:151-153 | without normalisation, a pixel no brighter than the background maps to 0 |
| BackgroundSubtraction.SubtractPixelMonotone | cv_scripts/background_subtraction.py:143-153 | a brighter pixel never maps to a darker value |
| BackgroundSubtraction.SubtractFrame | cv_scripts/background_subtraction.py:138-155 | one output value per channel |
| BackgroundSubtraction.StaticClipIsGrey | cv_scripts/background_subtraction.py:98-153 | subtracting the mean of a static clip turns its frames uniformly mid grey |
| BackgroundSubtraction.SubtractBackground | cv_scripts/background_subtraction.py:122-162 | subtract_background returns one output frame per input frame, in order, each the per-pixel mapping of its input |
| VideoPrescreen.SampleFrameIndices | cv_scripts/video_prescreen.py:13-19 | with no more frames than samples the result is range(total_frames); otherwise num_samples entries; a zero sample count with frames divides by zero |
| VideoPrescreen.Spread | cv_scripts/video_prescreen.py:18-19 | num_samples spread indices |
| VideoPrescreen.SpreadEntry | cv_scripts/video_prescreen.py:19 | int(k * step) is the integer quotient of k * total_frames by num_samples |
| VideoPrescreen.SpreadQuotients | cv_scripts/video_prescreen.py:18-19 | with more frames than samples, entry k is (k * total_frames) // num_samples |
| VideoPrescreen.SpreadIndices | cv_scripts/video_prescreen.py:18-19 | with more frames than samples, the indices are num_samples entries, start at 0, increase strictly and stay below total_frames |
| VideoPrescreen.Band | cv_scripts/video_prescreen.py:212-218 | the band of a score is the position of the first threshold above it, all thresholds before it being at most the score |
| VideoPrescreen.BandMonotone | cv_scripts/video_prescreen.py:212-234 | a higher score never falls in a lower band |
| VideoPrescreen.BandIs | cv_scripts/video_prescreen.py:212-234 | between consecutive thresholds k-1 and k the band is k |
| VideoPrescreen.ClassifyBrightness | cv_scripts/video_prescreen.py:212-218 | the brightness label is the label of the score's band among 0.20, 0.35, 0.50, 0.65, 0.80 |
| VideoPrescreen.ClassifyFocus | cv_scripts/video_prescreen.py:220-226 | the focus label is the label of the score's band among 0.25, 0.40, 0.55, 0.70, 0.85 |
| VideoPrescreen.ClassifyQuality | cv_scripts/video_prescreen.py:228-234 | the quality label is the label of the score's band among 0.15, 0.30, 0.45, 0.60, 0.75 |
| VideoPrescreen.BrightnessLadder | cv_scripts/video_prescreen.py:212-218 | the brightness classifier returns one of its six labels, monotone in the score |
| VideoPrescreen.FocusLadder | cv_scripts/video_prescreen.py:220-226 | the focus classifier returns one of its six labels, monotone in the score |
| VideoPrescreen.QualityLadder | cv_scripts/video_prescreen.py:228-234 | the quality classifier returns one of its six labels, monotone in the score |
| VideoPrescreen.ReadSamples | cv_scripts/video_prescreen.py:182-196 | no more scores than sample indices |
| VideoPrescreen.ReadIndices | cv_scripts/video_prescreen.py:182-187 | no more readable indices than sample indices |
| VideoPrescreen.ReadIndicesMatch | cv_scripts/video_prescreen.py:182-196 | the readable indices are exactly the frames each score came from |
| VideoPrescreen.AllReadable | cv_scripts/video_prescreen.py:182-196 | when every sampled frame can be read, every index gives a score |
| VideoPrescreen.MeanBounds | cv_scripts/video_prescreen.py:207-208 | the mean of scores within [lo, hi] is within [lo, hi] |
| VideoPrescreen.Prescreen | cv_scripts/video_prescreen.py:148-257 | prescreen_video fails for an unopened video and, without sampling, for a video of no frames; otherwise it visits the sample indices in order, skips unreadable frames, fails when none was read, and reports the means, their labels and sample_indices[:len(scores)] |
| VideoPrescreen.ReportedIndicesWhenAllRead | cv_scripts/video_prescreen.py:249 | when every sampled frame can be read, the reported indices are the frames read |
| VideoPrescreen.ReportedIndicesMislabel | cv_scripts/video_prescreen.py:249 | sampling 2 of 20 frames with frame 0 unreadable reports index 0 for the score of frame 10 |
| BatchProcess.ExtractTimeAsWritten | cv_scripts/batch_process_videos.py:237-246 | the result ends in ":00", is never "Unknown", and its hour holds no '_' or '-' |
| BatchProcess.DeadReplacement | cv_scripts/batch_process_videos.py:241-242 | removing "_background_subtracted" from the last '_'-piece changes nothing |
| BatchProcess.HourOfPiece | cv_scripts/batch_process_videos.py:242-243 | the hour of a last piece "HH-rest.mp4" is HH |
| BatchProcess.ExtractTimeOfName | cv_scripts/batch_process_videos.py:237-244 | a name "prefix_HH-rest.mp4" gets "HH:00" |
| BatchProcess.ExtractTimeExample | cv_scripts/batch_process_videos.py:238 | SUBCAM_ALG_2020-01-26_09-00-40.mp4 gets "09:00" |
| BatchProcess.ExtractTimeOfPiece | cv_scripts/batch_process_videos.py:241-244 | a name whose last piece has no '-' gets that piece followed by ":00" |
| BatchProcess.BackgroundSubtractedMislabelled | cv_scripts/batch_process_videos.py:241-244 | every "..._background_subtracted.mp4" name gets "subtracted:00", whatever its hour |
| BatchProcess.ExtractTime | cv_scripts/batch_process_videos.py:237-244 | the corrected parser's result ends in ":00" |
| BatchProcess.ExtractTimeIgnoresSuffix | cv_scripts/batch_process_videos.py:242 | with the suffix stripped before splitting, a background-subtracted video gets the hour of its original |
| BatchProcess.ExtractTimeCorrectedOfName | cv_scripts/batch_process_videos.py:237-244 | the corrected parser gives "prefix_HH-rest.mp4" the hour HH |
| BatchProcess.ExtractTimeCorrectedExample | cv_scripts/batch_process_videos.py:238 | the corrected parser gives 09:00 to the documented name and to its background-subtracted output |
| BatchProcess.NatToString | cv_scripts/batch_process_videos.py:83-85 | str(n) of n >= 0 is a non-empty string of digits |
| BatchProcess.IntToString | cv_scripts/batch_process_videos.py:83-85 | str(n) is non-empty, digits for n >= 0, starts with '-' for n < 0 |
| BatchProcess.NatToStringValue | cv_scripts/batch_process_videos.py:83-85 | reading back str(n) gives n |
| BatchProcess.IntToStringValue | cv_scripts/batch_process_videos.py:83-85 | reading back str(n) of n >= 0 gives n |
| BatchProcess.BackgroundSubtractionCommand | cv_scripts/batch_process_videos.py:79-85 | the argument list has 10 elements, the input path and output directory in place, and duration and subsample as strings that read back as their values |
| BatchProcess.CountPresent | cv_scripts/batch_process_videos.py:133-157 | no more present keys than table entries |
| BatchProcess.Overrides | cv_scripts/batch_process_videos.py:133-157 | two arguments per recognised key present |
| BatchProcess.OverridesIgnoreOthers | cv_scripts/batch_process_videos.py:133-157 | only recognised keys matter: video_id, run_id and unknown keys add nothing |
| BatchProcess.NoOverrides | cv_scripts/batch_process_videos.py:133-157 | with no recognised key present there are no overrides |
| BatchProcess.OverrideAt | cv_scripts/batch_process_videos.py:133-157 | each present key's flag and str(value) follow the overrides of the keys tested before it, in table order |
| BatchProcess.BenthicV4Command | cv_scripts/batch_process_videos.py:124-157 | the command is the six fixed elements followed by the overrides; with no parameters exactly the six; its length is 6 + 2 * the recognised keys present |
| PyStrings.Split | cv_scripts/batch_process_videos.py:241 | split gives at least one piece, no piece holds the separator, and joining the pieces gives the string back |
| PyStrings.SplitJoin | cv_scripts/batch_process_videos.py:241 | splitting a join of separator-free pieces gives the pieces back |
| PyStrings.LastPieceAfter | cv_scripts/batch_process_videos.py:241 | the last piece is the text after the last separator |
| PyStrings.OccursIff | process_videos_yolov8.py:31-32 | the substring test holds exactly when some slice equals the pattern |
| PyStrings.OccursIn | process_videos_yolov8.py:31-32 | a pattern occurs in any string that has it as a piece |
| PyStrings.Replace | cv_scripts/batch_process_videos.py:242 | a string without the pattern comes back unchanged |
| PyStrings.ReplaceKeepsOut | cv_scripts/batch_process_videos.py:242 | replacing with text free of c never introduces c |
| PyStrings.ReplaceTrailing | cv_scripts/batch_process_videos.py:242 | replacing a trailing pattern whose first character occurs nowhere before it leaves the text before it |
| PyStrings.FirstPiece | cv_scripts/batch_process_videos.py:243 | the first piece is the text before the first separator |
| PyStrings.RFind | process_videos_yolov8.py:216 | rfind gives the last position of the character, -1 when there is none |
| PyStrings.SplitExt | process_videos_yolov8.py:216 | splitext splits the name into root and extension, which is empty or starts at the last '.' |
| PyStrings.SplitExtOf | process_videos_yolov8.py:216 | a name ending in an extension after a non-dot character splits there |
| YoloVideos.IsOriginalVideoIff | process_videos_yolov8.py:28-32 | a name is an original video exactly when it ends in .mp4 and holds neither tag |
| YoloVideos.NotMp4Rejected | process_videos_yolov8.py:30 | a name not ending in .mp4 is rejected |
| YoloVideos.OutputVideoName | process_videos_yolov8.py:216-217 | the annotated video's name ends in .mp4 |
| YoloVideos.OutputPaths | process_videos_yolov8.py:216-218 | the annotated video lands in the video directory as an .mp4 that the filter rejects, so a later run never takes it for an original, and the detections land in the detection directory as a .json file |
| YoloVideos.OriginalRoot | process_videos_yolov8.py:216-217 | an original video "base.mp4" has root base and output base_yolov8.mp4 |
| YoloVideos.OutputRejected | process_videos_yolov8.py:28-32 | every annotated video the script writes is rejected by the filter |
| YoloVideos.BackgroundOutputRejected | process_videos_yolov8.py:31 | every background-subtracted name is rejected |
| YoloVideos.Originals | process_videos_yolov8.py:190-193 | the selected videos are exactly the listed names that pass the filter, no more than listed |
| YoloVideos.OriginalsIgnoreRejected | process_videos_yolov8.py:190-193 | rejected names added to the listing change nothing |
| YoloVideos.RerunSelectsSameVideos | process_videos_yolov8.py:190-193 | a second run over the directory with the first run's outputs added selects the same videos |
| YoloVideos.SelectVideos | process_videos_yolov8.py:190-193 | the listing loop collects the original videos in listing order |
| MotionAnalysis.Kept | cv_scripts/motion_analysis.py:160-165 | the kept components are non-background components of the frame whose size is in [min_size, max_size], no more than the components |
| MotionAnalysis.KeptIff | cv_scripts/motion_analysis.py:160-165 | a component is kept exactly when it is not the background (label 0) and its size is in range |
| MotionAnalysis.FrameBlobs | cv_scripts/motion_analysis.py:156-165 | the label loop collects the sizes and centroids of the kept components, in label order |
| MotionAnalysis.AllSizesInRange | cv_scripts/motion_analysis.py:160-168 | every tallied size lies in [min_size, max_size] |
| MotionAnalysis.TotalIsSizes | cv_scripts/motion_analysis.py:167-176 | sum(blob_counts) == len(blob_sizes) |
| MotionAnalysis.BucketsPartition | cv_scripts/motion_analysis.py:183-200 | small + medium + large == the number of sizes (all zero for none) |
| MotionAnalysis.MaxOf | cv_scripts/motion_analysis.py:175 | the maximum count is one of the counts and at least every count |
| MotionAnalysis.TallyConsistent | cv_scripts/motion_analysis.py:167-200 | one count and one centroid list per frame, each count the length of its list, total_detections == len(blob_sizes) == the three buckets together, max_count at least every count, every size in range |
| MotionAnalysis.DetectOrganisms | cv_scripts/motion_analysis.py:128-220 | the loop's statistics are the tally of the clip; with no frames np.max raises |
| MotionAnalysis.Zones | cv_scripts/motion_analysis.py:254-257 | the top, middle and bottom row ranges are adjacent, in order, from row 0 to the last row |
| MotionAnalysis.ZonesPartition | cv_scripts/motion_analysis.py:254-257 | every heatmap row falls in exactly one zone, and only heatmap rows fall in a zone |
| MotionAnalysis.ZoneSizes | cv_scripts/motion_analysis.py:254-257 | the top and middle zones have rows // 3 rows, the bottom between that and two more |
| HaplotypeChart.NonZeroTotalHasCount | src/visualizations/haplotype-bubble-chart.py:26-32 | a non-zero total implies a filled sample cell |
| HaplotypeChart.ToSpecies | src/visualizations/haplotype-bubble-chart.py:29-38 | the total is the sum of the filled cells; is_invasive holds exactly when NNS is filled and not "NA", is_threatened exactly when the Red List status is filled and not "Not Evaluated"; an empty score becomes "MODERATE" and an empty NNS "NA" |
| HaplotypeChart.LoadAndClean | src/visualizations/haplotype-bubble-chart.py:17-44 | every row kept has total_haplotypes > 0, and no row is added |
| HaplotypeChart.CleanIff | src/visualizations/haplotype-bubble-chart.py:26-32 | a species is kept exactly when it comes from a row with a positive total; the filled-cell filter removes nothing more |
| HaplotypeChart.Where | src/visualizations/haplotype-bubble-chart.py:51-56 | a mask keeps exactly the rows meeting it |
| HaplotypeChart.WhereKeeps | src/visualizations/haplotype-bubble-chart.py:69-70 | a mask keeps the descending order and the distinct names |
| HaplotypeChart.WhereSplitNames | src/visualizations/haplotype-bubble-chart.py:69-70 | the mandatory and optional parts of distinct-named rows share no name |
| HaplotypeChart.Insert | src/visualizations/haplotype-bubble-chart.py:66 | insertion keeps the rows descending and adds exactly one row |
| HaplotypeChart.InsertDistinct | src/visualizations/haplotype-bubble-chart.py:66 | insertion of a new name keeps the names distinct |
| HaplotypeChart.SortDesc | src/visualizations/haplotype-bubble-chart.py:66 | the sort is descending by total_haplotypes and holds the same rows |
| HaplotypeChart.SortDistinct | src/visualizations/haplotype-bubble-chart.py:66 | the sort keeps the names distinct |
| HaplotypeChart.Top | src/visualizations/haplotype-bubble-chart.py:59 | nlargest has min(n, rows) rows, all from the table |
| HaplotypeChart.TopIsLargest | src/visualizations/haplotype-bubble-chart.py:59 | no row left out of nlargest has a larger total than a row kept |
| HaplotypeChart.KeepFirst | src/visualizations/haplotype-bubble-chart.py:63 | the de-duplicated rows are rows of the input whose name was not seen |
| HaplotypeChart.KeepFirstDistinct | src/visualizations/haplotype-bubble-chart.py:63 | drop_duplicates leaves no two rows with the same name |
| HaplotypeChart.KeepFirstMandatory | src/visualizations/haplotype-bubble-chart.py:63 | when invasive and threatened rows come first, each of their names is represented by a mandatory row |
| HaplotypeChart.DistinctBound | src/visualizations/haplotype-bubble-chart.py:63 | distinct-named rows drawn from another list are no more numerous than it |
| HaplotypeChart.CandidatesFromTable | src/visualizations/haplotype-bubble-chart.py:63-66 | the candidates are distinct-named table rows, descending, the optional ones from nlargest |
| HaplotypeChart.Limit | src/visualizations/haplotype-bubble-chart.py:72-76 | the limit keeps at most max_species rows, all from the two parts |
| HaplotypeChart.LimitOrdered | src/visualizations/haplotype-bubble-chart.py:72-76 | the limit keeps mandatory rows in front and each part descending |
| HaplotypeChart.LimitDistinct | src/visualizations/haplotype-bubble-chart.py:72-76 | the limit keeps names distinct |
| HaplotypeChart.LimitKeepsMandatory | src/visualizations/haplotype-bubble-chart.py:72-76 | below the limit every mandatory row is kept |
| HaplotypeChart.SelectTopSpecies | src/visualizations/haplotype-bubble-chart.py:46-79 | select_top_species returns at most max_species rows, all from the table |
| HaplotypeChart.SelectOrdered | src/visualizations/haplotype-bubble-chart.py:66-76 | invasive or threatened rows precede all others, and each group is descending by total_haplotypes |
| HaplotypeChart.SelectDistinct | src/visualizations/haplotype-bubble-chart.py:63-76 | no two selected rows share a species name, and every other row is among the nlargest |
| HaplotypeChart.SelectKeepsMandatory | src/visualizations/haplotype-bubble-chart.py:51-76 | with fewer invasive or threatened rows than max_species, every one of those species is selected |
| HaplotypeChart.MandatoryCandidate | src/visualizations/haplotype-bubble-chart.py:51-63 | every invasive or threatened species has a mandatory candidate of its name |
| HaplotypeChart.PositiveUpTo | src/visualizations/haplotype-bubble-chart.py:89-91 | the positive sample columns, strictly increasing, exactly those with a positive count |
| HaplotypeChart.LongRecordsIff | src/visualizations/haplotype-bubble-chart.py:86-106 | a data point is in the long table exactly when it belongs to a row and a sample whose count is positive |
| HaplotypeChart.RowRecordsIff | src/visualizations/haplotype-bubble-chart.py:89-102 | a row's data points are exactly those of its samples with positive counts |
| HaplotypeChart.LongRecordsCounts | src/visualizations/haplotype-bubble-chart.py:91-100 | every data point has a positive count and carries its species' total |
| HaplotypeChart.NoEmptyCellAppend | src/visualizations/haplotype-bubble-chart.py:86-90 | a table without empty cells stays so when a full row is added |
| HaplotypeChart.RowToRecords | src/visualizations/haplotype-bubble-chart.py:89-102 | the sample loop of a row fails exactly when a cell is empty, and otherwise yields its data points |
| HaplotypeChart.RecordsUpToColumns | src/visualizations/haplotype-bubble-chart.py:89-102 | column by column the loop builds the data points of the positive columns |
| HaplotypeChart.TransformToLongFormat | src/visualizations/haplotype-bubble-chart.py:81-106 | transform_to_long_format as written fails exactly when the table has an empty cell, and otherwise returns the long table |
| HaplotypeChart.TotalStep | src/visualizations/haplotype-bubble-chart.py:29 | the row sum grows by each filled cell |
| HaplotypeChart.EmptyCellSurvivesCleaning | src/visualizations/haplotype-bubble-chart.py:26-32 | a row with one filled cell and five empty ones survives cleaning, and the table has an empty cell |
| HaplotypeChart.BubbleSize | src/visualizations/haplotype-bubble-chart.py:108-112 | the size is 8 plus 5 per haplotype, at least 8 for a non-negative count |
| HaplotypeChart.BubbleSizeIncreasing | src/visualizations/haplotype-bubble-chart.py:108-112 | more haplotypes give a strictly larger bubble |

## Left out

- Image operations: colour conversion, blurring, thresholding, morphology, connected components, contours and perimeters, `np.abs` of v5's difference image, `np.median` of v5's background, resizing. These are library calls with no visible source. Each frame comes in as its component records (`Blobs.FrameComponents`, `MotionAnalysis.Component`).
- Floating point: every quantity is an exact real. The `1e-6` aspect guard and π (as 3.141592653589793) keep their values but are not rounded. The `int(i * step)` of the sample indices is the exact integer quotient. No claim is made about float rounding.
- Euclidean distance: matching, coupling, de-duplication and the rest zone compare squared distances. These agree with the square-root distances in value and order, but the square root itself is not computed.
- TrackMetrics.Norm: the square root is a ghost function that is a root only where a root exists. The real-number theory of the verifier cannot prove that every non-negative real has one. Displacement, average speed and `validate_track` are therefore ghost, and `Track.isValid` is a ghost field.
- TrackManager.MatchBlobsToTracks: the matched tracks are appended in increasing index order. Python iterates the set `matched_tracks` in its hash-table order, which for small integers is often, but not always, ascending.
- Video input and output: reading, seeking and frame counts reported by the capture device become sequences and parameters, and the model has no clocks. Also left out: annotated-frame rendering (`draw_track_trail`, `render_annotated_frame`), video writers, progress output and verbosity, the timestamp values in `frame_detection_counts` (only their division by zero is modelled, in `VideoTracking.TrackClip`), result dictionaries and JSON, `convert_to_native_types`, argument parsing, and running the commands with `subprocess`.
- `video_prescreen.py`: the brightness, focus and quality computations (lines 21-146), the raw values, `round()` and the video's duration. The per-frame scores are inputs. The quality label is modelled as a classifier of a given score.
- `motion_analysis.py`: the mean, median and standard deviation of the sizes, `avg_count` (its computation is in `MotionAnalysis.Tally`, but no property is proved), the heatmap accumulation and hotspots, and the activity score (lines 277-331). Only the zone split of the heatmap is modelled.
- HaplotypeChart.SortDesc: pandas' `sort_values` and `nlargest` do not promise an order for equal totals. The model breaks ties stably, in table order.
- HaplotypeChart.SelectTopSpecies: `max_species` is a natural number; a negative value, for which pandas' `head` counts from the end, is not modelled.
- HaplotypeChart.LoadAndClean: reading the CSV, and the species name taken from its first column, are the caller's. Counts are integers where pandas holds floats, and an empty cell is `None`. The annotation columns are assumed present, so `row.get`'s defaults for missing columns are not modelled.
- The plotting of the bubble chart (`create_bubble_chart` and after) is not part of the model.
- BatchProcess.BenthicV4Command: the parameter values are stringified by a function given as an argument. `str` of a float is not modelled; `str` of an integer is (`BatchProcess.IntToString`).
- BatchProcess.BackgroundSubtractionCommand: duration and subsample are integers. The caller passes the raw JSON settings values (batch_process_videos.py:478-479) and background_subtraction.py parses `--duration` as a float, so a fractional duration such as 12.5, or a float subsample, is valid input the model cannot express, because `str` of a float is not modelled.
- `find_videos`, `run_motion_analysis`, `generate_comparison_report` and the batch driver's main loop are not part of this model.
- YoloVideos.SelectVideos: the directory listing is an input sequence, in the order `os.listdir` returns it. YOLO inference and `os.makedirs` are not modelled.
- BackgroundSubtraction.AverageBackground: a frame is a flat sequence of channel bytes. The float32 mean, `save_output_video` and `main` are not modelled.
- BenthicV5.BackgroundFrames: the model yields the frames the median is taken over, not the median itself. The value of the `output_fps` metadata entry, a float, is not computed; only its division by zero is modelled.
- cv_scripts/modal_processing.py, cv_scripts/heartbeat.py and cv_scripts/logging_utils.py are not part of this model. The same goes for src/visualizations/taxonomy-stacked-bar.py, generate-visualizations.py, test_yolov8_underwater.py, reencode_videos_h264.py and deploy_modal_fix.py. They cover cloud dispatch, networking threads, console output, plotting, inference, re-encoding and deployment.

## Findings

| source | as written | input that shows it | evidently intended | confidence | as-written member | corrected member |
|---|---|---|---|---|---|---|
| cv_scripts/batch_process_videos.py:241-243 | the name is split on '_' before `_background_subtracted` is removed, so that replacement can never match; the last piece of a background-subtracted name is `subtracted.mp4` | `SUBCAM_ALG_2020-01-26_09-00-40_background_subtracted.mp4` (the kind of name passed at line 267) gives `subtracted:00` | strip `.mp4` and `_background_subtracted` before splitting, giving `09:00` | high; not executed | BatchProcess.BackgroundSubtractedMislabelled | BatchProcess.ExtractTimeIgnoresSuffix |
| cv_scripts/video_prescreen.py:249 | `frame_indices` reports the first k sample indices, k being the number of frames read, whatever frames were skipped | 20 frames, 2 samples, frame 0 unreadable: the scores come from frame 10, the report names frame 0 | report the indices of the frames actually read | high; not executed | VideoPrescreen.ReportedIndicesMislabel | VideoPrescreen.ReadIndicesMatch |
| src/visualizations/haplotype-bubble-chart.py:90 | `int(row[sample])` raises on an empty (NaN) cell. Cleaning keeps rows with some cells empty (lines 26-32), so one such row voids the whole transform | a species row with `ALGA_C_S` = 3 and the other five sample cells empty | treat an empty cell like a zero count, emitting no data point for it | medium (depends on empty cells in the input tables); not executed | HaplotypeChart.TransformToLongFormat | HaplotypeChart.LongRecordsIff |
