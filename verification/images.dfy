/** The NumPy image arrays that flow between camera, detector and streamer,
    reduced to what the logic looks at: size, channel order and the boxes
    drawn on them. */
module Images {

  /** OpenCV frames are BGR; Picamera2 delivers RGB. */
  datatype ChannelOrder = Bgr | Rgb

  /** Integer pixel corners `(x1, y1, x2, y2)`. */
  datatype BBox = BBox(x1: int, y1: int, x2: int, y2: int)

  /** A rectangle drawn with `cv2.rectangle` and captioned by `cv2.putText`. */
  datatype Overlay = Overlay(box: BBox, caption: string)

  /** A decoded raster. `content` stands for the pixel data, which no
      modelled operation inspects. */
  datatype Frame = Frame(content: nat, width: nat, height: nat, order: ChannelOrder, overlays: seq<Overlay>)
}
