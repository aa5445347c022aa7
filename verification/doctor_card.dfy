/** The avatar placeholder of DoctorCard.js (and of the detail screen): the
    initials `name.split(' ').map(n => n[0]).join('')`. An empty segment
    yields `undefined`, which `join` prints as nothing. */
module DoctorCard {
  import Text

  /** The number of non-empty segments. */
  function NonEmptyCount(segments: seq<string>): nat
  {
    if |segments| == 0 then 0
    else (if |segments[0]| > 0 then 1 else 0) + NonEmptyCount(segments[1..])
  }

  /** `segments.map(n => n[0]).join('')` */
  function FirstChars(segments: seq<string>): (r: string)
    ensures |r| == NonEmptyCount(segments)
  {
    if |segments| == 0 then []
    else (if |segments[0]| > 0 then [segments[0][0]] else []) + FirstChars(segments[1..])
  }

  /** The initials of a name. */
  function Initials(name: string): (r: string)
    ensures |r| == NonEmptyCount(Text.Split(name, ' '))
    ensures |r| <= |name|
    ensures ' ' !in r
  {
    InitialsAreWordStarts(name);
    FirstChars(Text.Split(name, ' '))
  }

  /** A reference reading of the initials, by position: scanning the name
      left to right, keep every non-space character that starts the name or
      follows a space. `atStart` says whether the previous character was a
      space (or there was none). */
  function WordStarts(s: string, atStart: bool): (r: string)
    ensures |r| <= |s|
    ensures ' ' !in r
  {
    if |s| == 0 then []
    else (if atStart && s[0] != ' ' then [s[0]] else []) + WordStarts(s[1..], s[0] == ' ')
  }

  /** The split-based initials are exactly the word starts, also when the
      name has leading, trailing or doubled spaces. */
  lemma {:induction false} SegmentsAreWordStarts(t: string)
    ensures WordStarts(t, true) == FirstChars(Text.Split(t, ' '))
    ensures WordStarts(t, false) == FirstChars(Text.Split(t, ' ')[1..])
    decreases |t|
  {
    if |t| > 0 {
      var rest := Text.Split(t[1..], ' ');
      SegmentsAreWordStarts(t[1..]);
      var segments := Text.Split(t, ' ');
      if t[0] == ' ' {
        assert segments == [[]] + rest;
        assert segments[1..] == rest;
      } else {
        assert segments == [[t[0]] + rest[0]] + rest[1..];
        assert segments[1..] == rest[1..];
        assert segments[0][0] == t[0];
      }
    }
  }

  lemma InitialsAreWordStarts(name: string)
    ensures FirstChars(Text.Split(name, ' ')) == WordStarts(name, true)
  {
    SegmentsAreWordStarts(name);
  }
}
