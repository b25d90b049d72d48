/** The camera lookup script: it reads the `v4l2-ctl --list-devices` listing, finds the
    block of the camera plugged into a given USB path, takes the first `/dev/video`
    device of that block, and prints a camera configuration for both cameras. The
    listing is a parameter (`None` when the listing command fails). */
module FindCameras {
  import opened Wrappers
  import opened Text

  const BlockSep := "\n\n"
  const LineSep := "\n"
  const DevicePrefix := "/dev/video"

  function Blocks(listing: string): seq<string> {
    SplitOn(listing, BlockSep)
  }

  function Lines(block: string): seq<string> {
    SplitOn(block, LineSep)
  }

  /** Part `p` of `line` is a device path, and the line mentions `video`. */
  predicate LineHit(line: string, p: int) {
    Contains(line, "video") && 0 <= p < |SplitWhitespace(line)| && StartsWith(SplitWhitespace(line)[p], DevicePrefix)
  }

  /** Part `p` of line `l` of `block` is a device path of a block naming the USB path. */
  predicate BlockHit(block: string, usb: string, l: int, p: int) {
    Contains(block, usb) && 0 <= l < |Lines(block)| && LineHit(Lines(block)[l], p)
  }

  /** The first device part of a line, from part `k` on. */
  function FirstPart(line: string, k: nat): (r: Option<nat>)
    requires Contains(line, "video")
    ensures r.Some? ==> k <= r.value && LineHit(line, r.value)
    ensures forall p :: k <= p && (r.None? || p < r.value) ==> !LineHit(line, p)
    decreases |SplitWhitespace(line)| - k
  {
    var parts := SplitWhitespace(line);
    if k >= |parts| then None
    else if StartsWith(parts[k], DevicePrefix) then Some(k)
    else FirstPart(line, k + 1)
  }

  /** The first line, from line `k` on, with a device part, and that part. */
  function FirstLine(block: string, usb: string, k: nat): (r: Option<(nat, nat)>)
    requires Contains(block, usb)
    ensures r.Some? ==> k <= r.value.0 && BlockHit(block, usb, r.value.0, r.value.1)
    ensures r.Some? ==> forall p :: 0 <= p < r.value.1 ==> !BlockHit(block, usb, r.value.0, p)
    ensures forall l, p :: k <= l && (r.None? || l < r.value.0) ==> !BlockHit(block, usb, l, p)
    decreases |Lines(block)| - k
  {
    var lines := Lines(block);
    if k >= |lines| then None
    else if Contains(lines[k], "video") && FirstPart(lines[k], 0).Some? then Some((k, FirstPart(lines[k], 0).value))
    else
      assert forall p :: !LineHit(lines[k], p);
      FirstLine(block, usb, k + 1)
  }

  /** The first block, from block `k` on, holding a device, with its line and part. */
  function FirstBlock(blocks: seq<string>, usb: string, k: nat): (r: Option<(nat, nat, nat)>)
    ensures r.Some? ==> k <= r.value.0 < |blocks| && BlockHit(blocks[r.value.0], usb, r.value.1, r.value.2)
    ensures r.Some? ==> forall l, p :: (l < r.value.1 || (l == r.value.1 && p < r.value.2)) ==>
                          !BlockHit(blocks[r.value.0], usb, l, p)
    ensures forall b, l, p :: k <= b < |blocks| && (r.None? || b < r.value.0) ==> !BlockHit(blocks[b], usb, l, p)
    decreases |blocks| - k
  {
    if k >= |blocks| then None
    else if Contains(blocks[k], usb) && FirstLine(blocks[k], usb, 0).Some? then
      var lp := FirstLine(blocks[k], usb, 0).value;
      Some((k, lp.0, lp.1))
    else
      FirstBlock(blocks, usb, k + 1)
  }

  /** `find_webcam_by_usb_path(usb)`: the first device path, in block, line and part
      order, of a block naming `usb`. */
  function FindWebcam(listing: Option<string>, usb: string): (r: Option<string>)
    ensures listing.None? ==> r.None?
    ensures r.Some? ==> StartsWith(r.value, DevicePrefix)
    ensures listing.Some? ==>
              var blocks := Blocks(listing.value);
              (r.None? <==> forall b, l, p :: 0 <= b < |blocks| ==> !BlockHit(blocks[b], usb, l, p))
  {
    if listing.None? then None
    else
      var blocks := Blocks(listing.value);
      var hit := FirstBlock(blocks, usb, 0);
      if hit.None? then None
      else
        var (b, l, p) := hit.value;
        Some(SplitWhitespace(Lines(blocks[b])[l])[p])
  }

  /** The device found is part `p` of line `l` of block `b`, where `(b, l, p)` is the
      first hit in block, line and part order. */
  lemma FindWebcamIsFirst(listing: string, usb: string)
    requires FindWebcam(Some(listing), usb).Some?
    ensures var blocks := Blocks(listing);
            var hit := FirstBlock(blocks, usb, 0).value;
            && BlockHit(blocks[hit.0], usb, hit.1, hit.2)
            && FindWebcam(Some(listing), usb).value == SplitWhitespace(Lines(blocks[hit.0])[hit.1])[hit.2]
            && (forall b, l, p :: 0 <= b < hit.0 ==> !BlockHit(blocks[b], usb, l, p))
            && (forall l, p :: l < hit.1 || (l == hit.1 && p < hit.2) ==> !BlockHit(blocks[hit.0], usb, l, p))
  {
  }

  // ---------------------------------------------------------------------------
  // main

  /** What the script ends with: an exit status, or the printed configuration. */
  datatype Outcome = Exit(status: int) | Printed(config: string)

  /** The settings every camera gets: 640x480 at 30 fps. */
  const Settings := "width: 640, height: 480, fps: 30"

  /** One camera's entry: an OpenCV camera on `device` with the common settings. */
  function Entry(name: string, device: string): string {
    name + ": " + Open + device + Close
  }

  const Open := "{type: opencv, index_or_path: \""
  const Close := "\", " + Settings + "}"

  /** The printed text, regrouped entry by entry. */
  lemma ConfigEntries(top: string, front: string)
    ensures TopHead + top + FrontHead + front + Tail == "{" + Entry("top", top) + ", " + Entry("front", front) + "}"
  {
    Regroup("{", "top: ", ", ", "front: ", Open, Close, top, front, "}");
    assert "{" + "top: " == "{top: ";
    assert ", " + "front: " == ", front: ";
    assert "top" + ": " == "top: ";
    assert "front" + ": " == "front: ";
  }

  lemma Regroup(a: string, n: string, b: string, m: string, o: string, c: string, t: string, f: string, z: string)
    ensures (a + n) + o + t + (c + (b + m) + o) + f + (c + z) == a + (n + o + t + c) + b + (m + o + f + c) + z
  {
  }

  /** The configuration printed for the two cameras, 640x480 at 30 fps each: a `top`
      entry and then a `front` entry, each an OpenCV camera on its device; both
      devices appear as the `index_or_path` of their entries, in that order. */
  function CamerasConfig(top: string, front: string): (r: string)
    ensures r == "{" + Entry("top", top) + ", " + Entry("front", front) + "}"
    ensures OccursAt(r, top, |TopHead|)
    ensures OccursAt(r, front, |TopHead| + |top| + |FrontHead|)
  {
    OccursBetween(TopHead, top, FrontHead, front, Tail);
    ConfigEntries(top, front);
    TopHead + top + FrontHead + front + Tail
  }

  const TopHead := "{top: " + Open
  const FrontHead := Close + ", front: " + Open
  const Tail := Close + "}"

  /** `main()` with `argv` (the script name first) and the listing each lookup reads. */
  function Main(argv: seq<string>, topListing: Option<string>, frontListing: Option<string>): (r: Outcome)
    ensures |argv| != 3 ==> r == Exit(1)
    ensures |argv| == 3 ==>
              var top := FindWebcam(topListing, argv[1]);
              var front := FindWebcam(frontListing, argv[2]);
              (r.Printed? <==> top.Some? && front.Some?)
              && (r.Printed? ==> r.config == CamerasConfig(top.value, front.value))
              && (r.Exit? ==> r.status == 1)
  {
    if |argv| != 3 then Exit(1)
    else
      var top := FindWebcam(topListing, argv[1]);
      var front := FindWebcam(frontListing, argv[2]);
      if top.None? then Exit(1)
      else if front.None? then Exit(1)
      else Printed(CamerasConfig(top.value, front.value))
  }
}
