/** The ALSA device monitor (spa/plugins/alsa/alsa-monitor.c): how a udev
    sound device becomes an ALSA card name, how the PCM streams of an open
    card are walked one call at a time, how each stream becomes a monitor
    item, and how udev actions become monitor events.

    udev and the ALSA control interface are not modelled as code: a udev
    device is its property map, its syspath and its action; an ALSA card is
    the list of its PCM device numbers, the streams whose info query
    succeeds, its card information and the result of the card-info query. */
module AlsaMonitor {
  import opened Spa

  // ---------------------------------------------------------------------
  // udev devices

  /** A udev device: its properties (a key that is missing reads as NULL),
      its sysfs path and the action of the event that delivered it. */
  datatype UdevDevice = UdevDevice(props: map<string, string>, syspath: Option<string>, action: Option<string>)

  function Lookup(props: map<string, string>, key: string): Option<string>
  {
    if key in props then Some(props[key]) else None
  }

  /** The `(str = ...) && *str` test: a value that is present and not empty. */
  function NonEmpty(v: Option<string>): Option<string>
  {
    if v.Some? && v.value != "" then v else None
  }

  /** The first key whose value is present and not empty, as the nested
      fallbacks of `fill_item` pick one. */
  function FirstNonEmpty(props: map<string, string>, keys: seq<string>): (r: Option<string>)
    ensures r.Some? ==> r.value != ""
  {
    if |keys| == 0 then None
    else if NonEmpty(Lookup(props, keys[0])).Some? then NonEmpty(Lookup(props, keys[0]))
    else FirstNonEmpty(props, keys[1..])
  }

  /** The fallback picks key `i` exactly when key `i` has a value and no
      key before it does. */
  lemma {:induction false} FirstNonEmptyAt(props: map<string, string>, keys: seq<string>, i: nat)
    requires i < |keys| && NonEmpty(Lookup(props, keys[i])).Some?
    requires forall j :: 0 <= j < i ==> NonEmpty(Lookup(props, keys[j])).None?
    ensures FirstNonEmpty(props, keys) == NonEmpty(Lookup(props, keys[i]))
    decreases i
  {
    if i > 0 {
      assert NonEmpty(Lookup(props, keys[0])).None?;
      FirstNonEmptyAt(props, keys[1..], i - 1);
    }
  }

  /** The fallback finds nothing exactly when no key has a value. */
  lemma {:induction false} FirstNonEmptyNone(props: map<string, string>, keys: seq<string>)
    ensures FirstNonEmpty(props, keys).None? <==> forall j :: 0 <= j < |keys| ==> NonEmpty(Lookup(props, keys[j])).None?
    decreases |keys|
  {
    if |keys| > 0 {
      FirstNonEmptyNone(props, keys[1..]);
      assert forall j :: 1 <= j < |keys| ==> keys[j] == keys[1..][j - 1];
    }
  }

  // ---------------------------------------------------------------------
  // path_get_card_id

  /** Index of the last '/' in `s` (`strrchr`). */
  function LastSlash(s: string): (r: Option<nat>)
    ensures r.Some? ==> r.value < |s| && s[r.value] == '/' && forall j :: r.value < j < |s| ==> s[j] != '/'
    ensures r.None? ==> forall j :: 0 <= j < |s| ==> s[j] != '/'
  {
    if |s| == 0 then None
    else if s[|s| - 1] == '/' then Some(|s| - 1)
    else LastSlash(s[..|s| - 1])
  }

  /** `path_get_card_id`: the text after "/card" in the last path segment,
      when that segment starts with "/card" and has more after it; NULL
      otherwise, and for a NULL path. */
  function PathGetCardId(path: Option<string>): (r: Option<string>)
  {
    if path.None? then None
    else
      match LastSlash(path.value)
      case None => None
      case Some(i) =>
        var e := path.value[i..];
        if |e| <= 5 || e[..5] != "/card" then None else Some(e[5..])
  }

  /** A path ending in a segment "card<id>" yields `id`. */
  lemma PathGetCardIdFinds(prefix: string, id: string)
    requires |id| > 0 && forall j :: 0 <= j < |id| ==> id[j] != '/'
    ensures PathGetCardId(Some(prefix + "/card" + id)) == Some(id)
  {
    var p := prefix + "/card" + id;
    var i := |prefix|;
    assert p[i] == '/';
    assert forall j :: i < j < |p| ==> p[j] != '/' by {
      forall j | i < j < |p| ensures p[j] != '/' {
        if j >= i + 5 { assert p[j] == id[j - i - 5]; }
      }
    }
    assert LastSlash(p) == Some(i);
    assert p[i..][..5] == "/card";
    assert p[i..][5..] == id;
  }

  /** Conversely, a card id is found only in such a path: the path is some
      prefix, then "/card", then the id, which is not empty and has no '/'. */
  lemma PathGetCardIdShape(path: string)
    requires PathGetCardId(Some(path)).Some?
    ensures var id := PathGetCardId(Some(path)).value;
      && |id| > 0 && |path| >= |id| + 5
      && (forall j :: 0 <= j < |id| ==> id[j] != '/')
      && path == path[..|path| - |id| - 5] + "/card" + id
  {
    var i := LastSlash(path).value;
    var id := path[i + 5..];
    assert path[i..][..5] == "/card";
    assert path == path[..i] + path[i..i + 5] + id;
    forall j | 0 <= j < |id| ensures id[j] != '/' {
      assert id[j] == path[i + 5 + j];
    }
  }

  /** A NULL path yields NULL. */
  lemma PathGetCardIdNull()
    ensures PathGetCardId(None).None?
    ensures PathGetCardId(Some("")).None?
  {
  }

  // ---------------------------------------------------------------------
  // the card and the stream cursor

  /** `snd_ctl_card_info_t`, as far as an item reports it. */
  datatype CardInfo = CardInfo(id: string, components: string, driver: string, name: string, longname: string, mixername: string)

  /** `snd_pcm_info_t` of one stream: its id, name and subdevice name. */
  datatype PcmInfo = PcmInfo(id: string, name: string, subname: string)

  /** An open ALSA card: its PCM device numbers, the info of every stream
      `(device, stream index)` whose info query succeeds, its card
      information and the result of the card-info query. */
  datatype Card = Card(devices: seq<nat>, pcm: map<(nat, nat), PcmInfo>, info: CardInfo, infoRes: int)

  /** `dev_idx` and `stream_idx` of the monitor. */
  datatype Cursor = Cursor(devIdx: int, streamIdx: int)

  /** What one `get_next_device` call yields: a stream (device number and
      stream index, 0 playback and 1 capture), the end of the card, or an
      error from the card-info query. */
  datatype Next = Found(dev: nat, k: nat) | NoMore | Failed(err: int)

  /** Number of devices of the card numbered above `idx`. */
  function Above(devs: seq<nat>, idx: int): (n: nat)
    ensures n <= |devs|
  {
    if |devs| == 0 then 0 else (if devs[0] > idx then 1 else 0) + Above(devs[1..], idx)
  }

  /** The lowest device number above `idx` (`snd_ctl_pcm_next_device`). */
  function Least(devs: seq<nat>, idx: int): (r: Option<nat>)
    ensures r.Some? ==> r.value in devs && r.value > idx
    ensures r.Some? ==> forall j :: 0 <= j < |devs| && devs[j] > idx ==> devs[j] >= r.value
    ensures r.None? ==> forall j :: 0 <= j < |devs| ==> devs[j] <= idx
  {
    if |devs| == 0 then None
    else
      var rest := Least(devs[1..], idx);
      assert forall j :: 1 <= j < |devs| ==> devs[j] == devs[1..][j - 1];
      if devs[0] <= idx then rest
      else if rest.Some? && rest.value < devs[0] then rest
      else Some(devs[0])
  }

  /** Moving to a device above `idx` leaves fewer devices above. */
  lemma {:induction false} AboveDecreases(devs: seq<nat>, idx: int, d: int)
    requires d in devs && d > idx
    ensures Above(devs, d) < Above(devs, idx)
    decreases |devs|
  {
    if devs[0] != d {
      AboveDecreases(devs[1..], idx, d);
    } else {
      AboveMono(devs[1..], idx, d);
    }
  }

  lemma {:induction false} AboveMono(devs: seq<nat>, idx: int, d: int)
    requires idx <= d
    ensures Above(devs, d) <= Above(devs, idx)
    decreases |devs|
  {
    if |devs| > 0 {
      AboveMono(devs[1..], idx, d);
    }
  }

  /** The streams `get_next_device` may still yield from cursor
      `(devIdx, s)`: the remaining streams of the current device (only when
      `s` is 0 or 1), then both streams of every device numbered above. */
  predicate Candidate(card: Card, devIdx: int, s: int, d: nat, k: nat)
  {
    k <= 1 && ((d == devIdx && 0 <= s <= k) || (d in card.devices && d > devIdx))
  }

  /** Device-major order of streams. */
  predicate Before(d1: int, k1: nat, d2: int, k2: nat)
  {
    d1 < d2 || (d1 == d2 && k1 < k2)
  }

  /** The `again:` loop of `get_next_device` with `stream_idx == s` on
      device `devIdx`: stream indices 0 and 1 query the card info (its
      failure is returned) and then the stream's info (its failure moves to
      the next index); any other index moves to the next device, and no
      next device ends the walk.  The index is post-incremented in every
      case, so the cursor left behind points past the stream tried. */
  function Scan(card: Card, devIdx: int, s: int): (r: (Cursor, Next))
    decreases Above(card.devices, devIdx), if 0 <= s <= 1 then 2 - s else 0
  {
    if s == 0 || s == 1 then
      var c := Cursor(devIdx, s + 1);
      if card.infoRes < 0 then (c, Failed(card.infoRes))
      else if devIdx >= 0 && (devIdx as nat, s as nat) in card.pcm then (c, Found(devIdx as nat, s as nat))
      else Scan(card, devIdx, s + 1)
    else
      match Least(card.devices, devIdx)
      case None => (Cursor(-1, s + 1), NoMore)
      case Some(d) =>
        AboveDecreases(card.devices, devIdx, d);
        Scan(card, d, 0)
  }

  /** `get_next_device`: a cursor that has not started (`stream_idx == -1`)
      first moves to the next device; otherwise the walk resumes where the
      cursor points. */
  function GetNextDevice(card: Card, c: Cursor): (r: (Cursor, Next))
  {
    if c.streamIdx == -1 then
      match Least(card.devices, c.devIdx)
      case None => (Cursor(-1, -1), NoMore)
      case Some(d) => Scan(card, d, 0)
    else Scan(card, c.devIdx, c.streamIdx)
  }

  /** What `Scan` yields: the first candidate stream (device-major order)
      whose info query succeeds, with the cursor just past it; the end when
      there is none; and, when the card-info query fails, that failure as
      soon as any stream is tried. */
  lemma {:induction false} ScanYields(card: Card, devIdx: int, s: int)
    ensures var r := Scan(card, devIdx, s);
      && (r.1.Found? ==>
            && Candidate(card, devIdx, s, r.1.dev, r.1.k) && (r.1.dev, r.1.k) in card.pcm
            && r.0 == Cursor(r.1.dev, r.1.k + 1)
            && forall d: nat, k: nat :: Candidate(card, devIdx, s, d, k) && Before(d, k, r.1.dev, r.1.k) ==> (d, k) !in card.pcm)
      && (r.1.NoMore? ==> r.0.devIdx == -1)
      && (card.infoRes >= 0 ==>
            && !r.1.Failed?
            && (r.1.NoMore? ==> forall d: nat, k: nat :: Candidate(card, devIdx, s, d, k) ==> (d, k) !in card.pcm))
      && (card.infoRes < 0 ==>
            && !r.1.Found?
            && (r.1.NoMore? <==> s != 0 && s != 1 && Least(card.devices, devIdx).None?)
            && (r.1.Failed? ==> r.1.err == card.infoRes))
    decreases Above(card.devices, devIdx), if 0 <= s <= 1 then 2 - s else 0
  {
    if s == 0 || s == 1 {
      if card.infoRes < 0 {
      } else if !(devIdx >= 0 && (devIdx as nat, s as nat) in card.pcm) {
        ScanYields(card, devIdx, s + 1);
        forall d: nat, k: nat | Candidate(card, devIdx, s, d, k)
          ensures (d == devIdx && k == s) || Candidate(card, devIdx, s + 1, d, k)
        {
        }
      }
    } else {
      match Least(card.devices, devIdx)
      case None =>
      case Some(d0) =>
        AboveDecreases(card.devices, devIdx, d0);
        ScanYields(card, d0, 0);
        forall d: nat, k: nat ensures Candidate(card, devIdx, s, d, k) <==> Candidate(card, d0, 0, d, k) {
          if d in card.devices && d > devIdx {
            var j :| 0 <= j < |card.devices| && card.devices[j] == d;
          }
        }
    }
  }

  /** Cursor candidates of a whole `get_next_device` call. */
  predicate CandidateOf(card: Card, c: Cursor, d: nat, k: nat)
  {
    Candidate(card, c.devIdx, c.streamIdx, d, k)
  }

  /** `ScanYields` for a whole call: a cursor that has not started has the
      same candidates as one past the last stream of its device. */
  lemma GetNextDeviceYields(card: Card, c: Cursor)
    ensures var r := GetNextDevice(card, c);
      && (r.1.Found? ==>
            && CandidateOf(card, c, r.1.dev, r.1.k) && (r.1.dev, r.1.k) in card.pcm
            && r.0 == Cursor(r.1.dev, r.1.k + 1)
            && forall d: nat, k: nat :: CandidateOf(card, c, d, k) && Before(d, k, r.1.dev, r.1.k) ==> (d, k) !in card.pcm)
      && (card.infoRes >= 0 ==>
            && !r.1.Failed?
            && (r.1.NoMore? ==> forall d: nat, k: nat :: CandidateOf(card, c, d, k) ==> (d, k) !in card.pcm))
      && (card.infoRes < 0 ==> !r.1.Found?)
  {
    if c.streamIdx == -1 {
      ScanYields(card, c.devIdx, 2);
      assert Scan(card, c.devIdx, 2).1 == GetNextDevice(card, c).1;
      assert Scan(card, c.devIdx, 2).1.Found? ==> Scan(card, c.devIdx, 2) == GetNextDevice(card, c);
    } else {
      ScanYields(card, c.devIdx, c.streamIdx);
    }
  }

  /** A cursor's distance from the end of the card. */
  function Remaining(card: Card, c: Cursor): nat
  {
    3 * Above(card.devices, c.devIdx) + (if 0 <= c.streamIdx <= 1 then 2 - c.streamIdx else 0)
  }

  /** Yielding a stream moves the cursor towards the end. */
  lemma FoundAdvances(card: Card, c: Cursor)
    requires GetNextDevice(card, c).1.Found?
    ensures Remaining(card, GetNextDevice(card, c).0) < Remaining(card, c)
  {
    GetNextDeviceYields(card, c);
    var r := GetNextDevice(card, c);
    if r.1.dev != c.devIdx {
      AboveDecreases(card.devices, c.devIdx, r.1.dev);
    }
  }

  /** The loop of `impl_on_fd_events`: calls `get_next_device` until it
      fails, collecting the streams yielded and the final cursor. */
  function Walk(card: Card, c: Cursor): (r: (Cursor, seq<(nat, nat)>))
    ensures forall i :: 0 <= i < |r.1| ==> r.1[i] in card.pcm && r.1[i].1 <= 1
    decreases Remaining(card, c)
  {
    var n := GetNextDevice(card, c);
    if n.1.Found? then
      FoundAdvances(card, c);
      GetNextDeviceYields(card, c);
      var rest := Walk(card, n.0);
      (rest.0, [(n.1.dev, n.1.k)] + rest.1)
    else (n.0, [])
  }

  /** Every stream the walk yields is one of the cursor's candidates, and
      a failing card-info query yields nothing. */
  lemma {:induction false} WalkSound(card: Card, c: Cursor)
    ensures card.infoRes < 0 ==> Walk(card, c).1 == []
    ensures forall i :: 0 <= i < |Walk(card, c).1| ==> CandidateOf(card, c, Walk(card, c).1[i].0, Walk(card, c).1[i].1)
    decreases Remaining(card, c)
  {
    GetNextDeviceYields(card, c);
    var n := GetNextDevice(card, c);
    if n.1.Found? {
      FoundAdvances(card, c);
      WalkSound(card, n.0);
      FoundNarrows(card, c);
      var rest := Walk(card, n.0).1;
      var w := Walk(card, c).1;
      assert w == [(n.1.dev, n.1.k)] + rest;
      forall i | 0 < i < |w| ensures CandidateOf(card, c, w[i].0, w[i].1) {
        var e := rest[i - 1];
        assert w[i] == e;
        assert CandidateOf(card, n.0, e.0, e.1);
      }
    }
  }

  /** The walk yields streams in strictly increasing device-major order. */
  lemma {:induction false} WalkOrdered(card: Card, c: Cursor)
    ensures forall i, j :: 0 <= i < j < |Walk(card, c).1| ==>
      Before(Walk(card, c).1[i].0, Walk(card, c).1[i].1, Walk(card, c).1[j].0, Walk(card, c).1[j].1)
    decreases Remaining(card, c)
  {
    var n := GetNextDevice(card, c);
    if n.1.Found? {
      FoundAdvances(card, c);
      WalkOrdered(card, n.0);
      WalkSound(card, n.0);
      FoundNarrows(card, c);
      var rest := Walk(card, n.0).1;
      var w := Walk(card, c).1;
      assert w == [(n.1.dev, n.1.k)] + rest;
      forall i, j | 0 <= i < j < |w| ensures Before(w[i].0, w[i].1, w[j].0, w[j].1) {
        var e := rest[j - 1];
        assert w[j] == e;
        assert CandidateOf(card, n.0, e.0, e.1);
        if i > 0 { assert w[i] == rest[i - 1]; }
      }
    }
  }

  /** With a working card, every candidate stream whose info query
      succeeds is yielded. */
  lemma {:induction false} WalkComplete(card: Card, c: Cursor)
    requires card.infoRes >= 0
    ensures forall d: nat, k: nat :: CandidateOf(card, c, d, k) && (d, k) in card.pcm ==> (d, k) in Walk(card, c).1
    decreases Remaining(card, c)
  {
    GetNextDeviceYields(card, c);
    var n := GetNextDevice(card, c);
    if n.1.Found? {
      FoundAdvances(card, c);
      WalkComplete(card, n.0);
      FoundNarrows(card, c);
      var rest := Walk(card, n.0).1;
      var w := Walk(card, c).1;
      assert w == [(n.1.dev, n.1.k)] + rest;
      forall d: nat, k: nat | CandidateOf(card, c, d, k) && (d, k) in card.pcm ensures (d, k) in w {
        if (d, k) != (n.1.dev, n.1.k) {
          assert (d, k) in rest;
        }
      }
    }
  }

  /** With a working card, the walk from a cursor yields exactly the
      cursor's candidate streams whose info query succeeds, each once, in
      device-major order.  A failing card-info query yields nothing. */
  lemma WalkYieldsEveryStream(card: Card, c: Cursor)
    ensures var w := Walk(card, c).1;
      && (card.infoRes < 0 ==> w == [])
      && (card.infoRes >= 0 ==>
            && (forall i :: 0 <= i < |w| ==> CandidateOf(card, c, w[i].0, w[i].1) && w[i] in card.pcm)
            && (forall i, j :: 0 <= i < j < |w| ==> Before(w[i].0, w[i].1, w[j].0, w[j].1))
            && (forall d: nat, k: nat :: CandidateOf(card, c, d, k) && (d, k) in card.pcm ==> (d, k) in w))
  {
    WalkSound(card, c);
    WalkOrdered(card, c);
    if card.infoRes >= 0 {
      WalkComplete(card, c);
    }
  }

  /** After yielding stream `f`, the cursor's candidates are exactly the old
      candidates after `f`, less those that could not have been yielded. */
  lemma FoundNarrows(card: Card, c: Cursor)
    requires GetNextDevice(card, c).1.Found?
    ensures var n := GetNextDevice(card, c);
      && (forall d: nat, k: nat :: CandidateOf(card, n.0, d, k) ==>
            CandidateOf(card, c, d, k) && Before(n.1.dev, n.1.k, d, k))
      && (forall d: nat, k: nat :: CandidateOf(card, c, d, k) && (d, k) in card.pcm && (d, k) != (n.1.dev, n.1.k) ==>
            CandidateOf(card, n.0, d, k))
  {
    GetNextDeviceYields(card, c);
  }

  // ---------------------------------------------------------------------
  // open_card, close_card

  /** The monitor's card state: whether a control handle is open, the card
      name (`card_name`) and the stream cursor. */
  datatype Monitor = Monitor(cardOpen: bool, cardName: string, cursor: Cursor)

  /** `open_card`.  An open card is kept.  A device marked PULSE_IGNORE, a
      modem, or one whose DEVPATH has no card id is refused with -1; else the
      card name becomes "hw:" and the id, cut to the 15 characters the
      16-byte buffer holds, and the control is opened (`ctlOpenRes` is the
      result of `snd_ctl_open`; its failure is returned).  A fresh card
      starts with its cursor before the first device. */
  function OpenCard(m: Monitor, dev: UdevDevice, ctlOpenRes: int): (r: (Monitor, int))
    ensures r.1 == 0 <==>
      m.cardOpen || (Accepted(dev) && ctlOpenRes >= 0)
    ensures m.cardOpen ==> r == (m, 0)
    ensures !m.cardOpen && !Accepted(dev) ==> r == (m, -1)
    ensures !m.cardOpen && Accepted(dev) ==>
      var id := PathGetCardId(Lookup(dev.props, "DEVPATH")).value;
      && r.0.cardName == Truncate("hw:" + id, 15)
      && (ctlOpenRes < 0 ==> r == (m.(cardName := r.0.cardName), ctlOpenRes))
      && (ctlOpenRes >= 0 ==> r.0 == Monitor(true, r.0.cardName, Cursor(-1, -1)))
  {
    if m.cardOpen then (m, 0)
    else if "PULSE_IGNORE" in dev.props then (m, -1)
    else if Lookup(dev.props, "SOUND_CLASS") == Some("modem") then (m, -1)
    else
      match PathGetCardId(Lookup(dev.props, "DEVPATH"))
      case None => (m, -1)
      case Some(id) =>
        var name := Truncate("hw:" + id, 15);
        if ctlOpenRes < 0 then (m.(cardName := name), ctlOpenRes)
        else (Monitor(true, name, Cursor(-1, -1)), 0)
  }

  /** A device `open_card` takes: not ignored, not a modem, with a card id
      in its DEVPATH. */
  predicate Accepted(dev: UdevDevice)
  {
    && "PULSE_IGNORE" !in dev.props
    && Lookup(dev.props, "SOUND_CLASS") != Some("modem")
    && PathGetCardId(Lookup(dev.props, "DEVPATH")).Some?
  }

  /** `close_card`. */
  function CloseCard(m: Monitor): (r: Monitor)
    ensures !r.cardOpen
  {
    m.(cardOpen := false)
  }

  /** Closing and opening again starts the walk from the first device,
      whatever the cursor was, and a card name always starts "hw:". */
  lemma CloseThenOpenRestarts(m: Monitor, dev: UdevDevice, ctlOpenRes: int)
    requires Accepted(dev) && ctlOpenRes >= 0
    ensures var r := OpenCard(CloseCard(m), dev, ctlOpenRes);
      r.1 == 0 && r.0.cardOpen && r.0.cursor == Cursor(-1, -1)
      && |r.0.cardName| <= 15 && r.0.cardName[..3] == "hw:"
  {
  }

  /** From a freshly opened card the walk yields every stream of every
      device whose info query succeeds, each once, in device-major order. */
  lemma FreshWalkYieldsAll(card: Card)
    requires card.infoRes >= 0
    ensures var w := Walk(card, Cursor(-1, -1)).1;
      && (forall i :: 0 <= i < |w| ==> w[i] in card.pcm && w[i].0 in card.devices && w[i].1 <= 1)
      && (forall i, j :: 0 <= i < j < |w| ==> Before(w[i].0, w[i].1, w[j].0, w[j].1))
      && (forall d: nat, k :: d in card.devices && k <= 1 && (d, k) in card.pcm ==> (d, k) in w)
  {
    WalkYieldsEveryStream(card, Cursor(-1, -1));
    var w := Walk(card, Cursor(-1, -1)).1;
    forall d: nat, k: nat | d in card.devices && k <= 1 && (d, k) in card.pcm ensures (d, k) in w {
      assert CandidateOf(card, Cursor(-1, -1), d, k);
    }
  }

  // ---------------------------------------------------------------------
  // fill_item

  /** `enum snd_pcm_stream_t`; other values can reach `fill_item` in C. */
  datatype PcmStream = Playback | Capture | OtherStream(code: int)

  /** The stream `get_next_device` sets for stream index `k`. */
  function StreamOf(k: nat): PcmStream
  {
    if k == 0 then Playback else Capture
  }

  datatype Factory = SinkFactory | SourceFactory

  /** A monitor item: the node factory to create and the properties it
      carries, one field per key (absent when the key is not added).  The
      item id is `name`, its flags 0 and its state "available"; the fixed
      properties "udev-probed" = "1" and "device.api" = "alsa" are left out. */
  datatype Item = Item(
    name: string, klass: string, factory: Factory,
    card: string, device: string, cardInfo: CardInfo, pcm: PcmInfo,
    deviceClass: Option<string>, busPath: Option<string>, sysfsPath: Option<string>,
    udevId: Option<string>, bus: Option<string>, subsystem: Option<string>,
    vendorId: Option<string>, vendorName: Option<string>, productId: Option<string>,
    productName: string, serial: Option<string>, formFactor: Option<string>)

  /** Factory and class of a stream; -1 in C for any other stream. */
  function Classify(stream: PcmStream): (r: Option<(Factory, string)>)
    ensures r.Some? <==> !stream.OtherStream?
  {
    match stream
    case Playback => Some((SinkFactory, "Audio/Sink"))
    case Capture => Some((SourceFactory, "Audio/Source"))
    case OtherStream(_) => None
  }

  const MODEL_KEYS: seq<string> := ["ID_MODEL_FROM_DATABASE", "ID_MODEL_ENC", "ID_MODEL"]
  const VENDOR_KEYS: seq<string> := ["ID_VENDOR_FROM_DATABASE", "ID_VENDOR_ENC", "ID_VENDOR"]

  /** The device name: the first of the model keys with a value, else
      "Unknown". */
  function ModelName(dev: UdevDevice): (r: string)
    ensures r != ""
  {
    match FirstNonEmpty(dev.props, MODEL_KEYS)
    case Some(v) => v
    case None => "Unknown"
  }

  /** The name follows the model keys in order and is "Unknown" only when
      none has a value (or a key's value is itself "Unknown"). */
  lemma ModelNameFallsBack(dev: UdevDevice)
    ensures NonEmpty(Lookup(dev.props, "ID_MODEL_FROM_DATABASE")).Some? ==>
      ModelName(dev) == dev.props["ID_MODEL_FROM_DATABASE"]
    ensures (NonEmpty(Lookup(dev.props, "ID_MODEL_FROM_DATABASE")).None?
             && NonEmpty(Lookup(dev.props, "ID_MODEL_ENC")).Some?) ==>
      ModelName(dev) == dev.props["ID_MODEL_ENC"]
    ensures (NonEmpty(Lookup(dev.props, "ID_MODEL_FROM_DATABASE")).None?
             && NonEmpty(Lookup(dev.props, "ID_MODEL_ENC")).None?
             && NonEmpty(Lookup(dev.props, "ID_MODEL")).Some?) ==>
      ModelName(dev) == dev.props["ID_MODEL"]
    ensures (forall j :: 0 <= j < |MODEL_KEYS| ==> NonEmpty(Lookup(dev.props, MODEL_KEYS[j])).None?) ==>
      ModelName(dev) == "Unknown"
  {
    var ks := MODEL_KEYS;
    if NonEmpty(Lookup(dev.props, ks[0])).Some? {
      FirstNonEmptyAt(dev.props, ks, 0);
    } else if NonEmpty(Lookup(dev.props, ks[1])).Some? {
      FirstNonEmptyAt(dev.props, ks, 1);
    } else if NonEmpty(Lookup(dev.props, ks[2])).Some? {
      FirstNonEmptyAt(dev.props, ks, 2);
    } else {
      FirstNonEmptyNone(dev.props, ks);
    }
  }

  /** Decimal digits of `n`, as `%d` prints a non-negative number. */
  function NatToString(n: nat): (r: string)
    ensures |r| > 0 && forall i :: 0 <= i < |r| ==> '0' <= r[i] <= '9'
    decreases n
  {
    if n < 10 then [(48 + n) as char]
    else NatToString(n / 10) + [(48 + n % 10) as char]
  }

  /** Reference reading of a string of decimal digits. */
  function ParseNat(s: string): nat
    requires forall i :: 0 <= i < |s| ==> '0' <= s[i] <= '9'
  {
    if |s| == 0 then 0 else 10 * ParseNat(s[..|s| - 1]) + (s[|s| - 1] as int - 48)
  }

  /** The printed number reads back as itself. */
  lemma {:induction false} NatToStringRoundTrip(n: nat)
    ensures ParseNat(NatToString(n)) == n
    decreases n
  {
    if n >= 10 {
      NatToStringRoundTrip(n / 10);
      var s := NatToString(n);
      assert s[..|s| - 1] == NatToString(n / 10);
    }
  }

  /** `%d` of the `unsigned int` device number: the number is cut to 32
      bits and read as a signed 32-bit value, so numbers from 2^31 on print
      as negative. */
  function SignedDecimal(device: nat): string
  {
    var v := device % 0x1_0000_0000;
    if v < 0x8000_0000 then NatToString(v) else "-" + NatToString(0x1_0000_0000 - v)
  }

  /** A 32-bit device number prints as itself below 2^31 and as minus
      2^32 minus itself from there on. */
  lemma SignedDecimalOf(device: nat)
    requires device < 0x1_0000_0000
    ensures device < 0x8000_0000 ==> SignedDecimal(device) == NatToString(device)
    ensures device >= 0x8000_0000 ==> SignedDecimal(device) == "-" + NatToString(0x1_0000_0000 - device)
  {
    assert device % 0x1_0000_0000 == device;
  }

  /** `"%s,%d"` of the card name and device number into a 64-byte buffer. */
  function DeviceName(cardName: string, device: nat): string
  {
    Truncate(cardName + "," + SignedDecimal(device), 63)
  }

  /** A card name from `open_card` and a device number below 2^31 fit the
      buffer, so the name is the card name, a comma and the number that
      reads back. */
  lemma DeviceNameRoundTrip(cardName: string, device: nat)
    requires |cardName| <= 15 && device < 0x8000_0000
    ensures var s := DeviceName(cardName, device);
      && s[..|cardName|] == cardName && s[|cardName|] == ','
      && s[|cardName| + 1..] == NatToString(device)
      && ParseNat(s[|cardName| + 1..]) == device
  {
    NatToStringShort(device);
    NatToStringRoundTrip(device);
    SignedDecimalOf(device);
    var full := cardName + "," + NatToString(device);
    assert DeviceName(cardName, device) == full;
    assert |full| <= 63;
    assert full[|cardName| + 1..] == NatToString(device);
  }

  /** A device number from 2^31 to 2^32 - 1 prints as the negative number
      it stands for in 32-bit two's complement: a minus sign followed by
      digits that read back as 2^32 minus the number. */
  lemma DeviceNameNegative(cardName: string, device: nat)
    requires |cardName| <= 15 && 0x8000_0000 <= device < 0x1_0000_0000
    ensures var s := DeviceName(cardName, device);
      && s[..|cardName|] == cardName && s[|cardName|] == ',' && s[|cardName| + 1] == '-'
      && s[|cardName| + 2..] == NatToString(0x1_0000_0000 - device)
      && ParseNat(s[|cardName| + 2..]) == 0x1_0000_0000 - device
  {
    var n: nat := 0x1_0000_0000 - device;
    NatToStringShort(n);
    NatToStringRoundTrip(n);
    SignedDecimalOf(device);
    var full := cardName + "," + "-" + NatToString(n);
    assert DeviceName(cardName, device) == full;
    assert |full| <= 63;
    assert full[|cardName| + 2..] == NatToString(n);
  }

  /** A 32-bit number has at most 10 digits. */
  lemma NatToStringShort(n: nat)
    requires n < 0x1_0000_0000
    ensures |NatToString(n)| <= 10
  {
    NatToStringLength(n, 10);
  }

  lemma {:induction false} NatToStringLength(n: nat, digits: nat)
    requires digits > 0 && n < Pow10(digits)
    ensures |NatToString(n)| <= digits
    decreases n
  {
    if n >= 10 {
      assert digits > 1 && n / 10 < Pow10(digits - 1);
      NatToStringLength(n / 10, digits - 1);
    }
  }

  function Pow10(k: nat): (p: nat)
    ensures p >= 1
  {
    if k == 0 then 1 else 10 * Pow10(k - 1)
  }

  /** `fill_item`: the factory and class of the stream (none for another
      stream), the device name from the model keys, and the properties: the
      card and device names, the card and stream information, then the udev
      properties that have a value.  The bus path falls back from ID_PATH to
      the syspath, the vendor name through the vendor keys, and the product
      name is the device name. */
  function FillItem(cardName: string, info: CardInfo, pcm: PcmInfo, stream: PcmStream, device: nat, dev: UdevDevice)
    : (r: Option<Item>)
    ensures r.Some? <==> !stream.OtherStream?
    ensures r.Some? ==>
      && (r.value.factory, r.value.klass) == Classify(stream).value
      && r.value.name == r.value.productName == ModelName(dev)
      && r.value.card == cardName && r.value.device == DeviceName(cardName, device)
      && (r.value.busPath.None? <==>
            NonEmpty(Lookup(dev.props, "ID_PATH")).None? && NonEmpty(dev.syspath).None?)
      && (r.value.vendorName.None? <==>
            forall j :: 0 <= j < |VENDOR_KEYS| ==> NonEmpty(Lookup(dev.props, VENDOR_KEYS[j])).None?)
  {
    match Classify(stream)
    case None => None
    case Some((factory, klass)) =>
      var name := ModelName(dev);
      var p := dev.props;
      var busPath :=
        if NonEmpty(Lookup(p, "ID_PATH")).Some? then NonEmpty(Lookup(p, "ID_PATH")) else NonEmpty(dev.syspath);
      FirstNonEmptyNone(p, VENDOR_KEYS);
      Some(Item(
        name, klass, factory,
        cardName, DeviceName(cardName, device), info, pcm,
        NonEmpty(Lookup(p, "SOUND_CLASS")), busPath, NonEmpty(dev.syspath),
        NonEmpty(Lookup(p, "ID_ID")), NonEmpty(Lookup(p, "ID_BUS")), NonEmpty(Lookup(p, "SUBSYSTEM")),
        NonEmpty(Lookup(p, "ID_VENDOR_ID")), FirstNonEmpty(p, VENDOR_KEYS), NonEmpty(Lookup(p, "ID_MODEL_ID")),
        name, NonEmpty(Lookup(p, "ID_SERIAL")), NonEmpty(Lookup(p, "SOUND_FORM_FACTOR"))))
  }

  // ---------------------------------------------------------------------
  // impl_on_fd_events

  /** Monitor event types. */
  datatype EventType = Added | Changed | Removed

  /** A monitor event: its type and the item it carries. */
  datatype MonitorEvent = MonitorEvent(kind: EventType, item: Item)

  /** The udev action of each event type. */
  function ActionName(t: EventType): string
  {
    match t
    case Added => "add"
    case Changed => "change"
    case Removed => "remove"
  }

  /** The event type of a udev action: a missing action counts as
      "change", and an action other than "add", "change" and "remove" is
      ignored. */
  function ActionType(action: Option<string>): (r: Option<EventType>)
  {
    var a := if action.None? then "change" else action.value;
    if a == "add" then Some(Added)
    else if a == "change" then Some(Changed)
    else if a == "remove" then Some(Removed)
    else None
  }

  /** Each event type comes from its own action name, and only from it (or
      from a missing action, for Changed). */
  lemma ActionTypeRoundTrip(t: EventType, action: Option<string>)
    ensures ActionType(Some(ActionName(t))) == Some(t)
    ensures ActionType(action) == Some(t) <==>
      action == Some(ActionName(t)) || (action.None? && t == Changed)
  {
  }

  /** `impl_on_fd_events`: an ignored action does nothing; otherwise the
      card is opened (a refusal ends the call there), every stream the walk
      yields is reported as an event of the action's type, and the card is
      closed.  `card` is the card the device names. */
  function OnFdEvents(m: Monitor, dev: UdevDevice, card: Card, ctlOpenRes: int): (r: (Monitor, seq<MonitorEvent>))
  {
    match ActionType(dev.action)
    case None => (m, [])
    case Some(t) =>
      var (m1, res) := OpenCard(m, dev, ctlOpenRes);
      if res < 0 then (m1, [])
      else
        var (c, w) := Walk(card, m1.cursor);
        (CloseCard(m1.(cursor := c)), Events(t, m1.cardName, card, w, dev))
  }

  /** One event per yielded stream, carrying that stream's item. */
  function Events(t: EventType, cardName: string, card: Card, w: seq<(nat, nat)>, dev: UdevDevice): (r: seq<MonitorEvent>)
    requires forall i :: 0 <= i < |w| ==> w[i] in card.pcm && w[i].1 <= 1
  {
    seq(|w|, i requires 0 <= i < |w| =>
      MonitorEvent(t, FillItem(cardName, card.info, card.pcm[w[i]], StreamOf(w[i].1), w[i].0, dev).value))
  }

  /** An ignored action changes nothing; otherwise, for a device the
      monitor accepts on a closed monitor with a working card, the events
      are one per stream the walk yields, all of the action's type, each
      carrying that stream's item, and the card ends closed. */
  lemma OnFdEventsReports(m: Monitor, dev: UdevDevice, card: Card, ctlOpenRes: int)
    ensures ActionType(dev.action).None? ==> OnFdEvents(m, dev, card, ctlOpenRes) == (m, [])
    ensures ActionType(dev.action).Some? && !m.cardOpen && !(Accepted(dev) && ctlOpenRes >= 0) ==>
      OnFdEvents(m, dev, card, ctlOpenRes).1 == []
    ensures ActionType(dev.action).Some? && (m.cardOpen || (Accepted(dev) && ctlOpenRes >= 0)) ==>
      var r := OnFdEvents(m, dev, card, ctlOpenRes);
      var m1 := OpenCard(m, dev, ctlOpenRes).0;
      var w := Walk(card, m1.cursor).1;
      && !r.0.cardOpen
      && |r.1| == |w|
      && (card.infoRes >= 0 ==> forall i :: 0 <= i < |w| ==>
            && r.1[i].kind == ActionType(dev.action).value
            && r.1[i].item.factory == (if w[i].1 == 0 then SinkFactory else SourceFactory)
            && r.1[i].item.device == DeviceName(m1.cardName, w[i].0))
  {
  }
}
