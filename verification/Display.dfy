/** The records dispswitch keeps about outputs and CRTCs.
    Every pointer of the program is an object reference here; a mode is a value,
    because two pointers into the mode table are equal exactly when the modes are. */
module Display {
  import opened Machine

  datatype Rotation = Rotate0 | Rotate90 | Rotate180 | Rotate270 | RotateOther

  datatype Mode = Mode(id: int, width: int, height: int)

  datatype Relation = LeftOf | RightOf | Above | Below | SameAs

  function ModeWidth(m: Mode, r: Rotation): int {
    match r
    case Rotate0 | Rotate180 => m.width
    case Rotate90 | Rotate270 => m.height
    case RotateOther => 0
  }

  function ModeHeight(m: Mode, r: Rotation): int {
    match r
    case Rotate0 | Rotate180 => m.height
    case Rotate90 | Rotate270 => m.width
    case RotateOther => 0
  }

  /** What the server reported for a CRTC (XRRCrtcInfo); no mode means the CRTC is off. */
  datatype CrtcConfig = CrtcConfig(x: int, y: int, mode: Option<Mode>, rotation: Rotation, outputs: seq<int>)

  class Crtc {
    const xid: int
    const reported: CrtcConfig   // crtc_info
    var mode: Option<Mode>       // mode_info: the mode about to be set
    var x: int
    var y: int
    var rotation: Rotation
    var outputs: seq<Output>

    constructor (xid: int, reported: CrtcConfig)
      ensures this.xid == xid && this.reported == reported && mode == None && outputs == []
    {
      this.xid := xid;
      this.reported := reported;
      mode, x, y, rotation, outputs := None, 0, 0, Rotate0, [];
    }
  }

  class Output {
    const xid: int
    const clones: seq<int>
    const crtcs: seq<Crtc>       // the CRTCs that can drive this output
    var mode: Option<Mode>
    var crtc: Crtc?              // crtc_info
    var current: Crtc?           // current_crtc_info
    var x: int
    var y: int
    var rotation: Rotation
    var relation: Relation
    var relativeTo: Output?
    var relationChanged: bool    // changes & changes_relation
    var placed: bool             // changes & changes_position

    constructor (xid: int, clones: seq<int>, crtcs: seq<Crtc>)
      ensures this.xid == xid && this.clones == clones && this.crtcs == crtcs && mode == None && crtc == null
    {
      this.xid, this.clones, this.crtcs := xid, clones, crtcs;
      mode, crtc, current := None, null, null;
      x, y, rotation := 0, 0, Rotate0;
      relation, relativeTo, relationChanged, placed := SameAs, null, false, false;
    }
  }
}
