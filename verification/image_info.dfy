/** `ImageInfo`: the decisions its constructor takes about an uploaded file.
    The file system and the image decoders are inputs: what the file entry is,
    and what probing it with ImageIO yields. */
module ImageInfo {
  import opened Common
  import opened Strings

  /** The file as the constructor finds it; a null `File` or a missing path is `Absent`. */
  datatype FileEntry = Absent | Directory | Regular(length: int)

  /** What the decoder reports about the first image of the file; `None` for
      a header that could not be read (an `IOException`). */
  datatype Header = Header(formatName: string, width: int, height: int)

  /** The outcome of opening an image stream and looking for a reader.
      `frameCount` is what `getNumImages(true)` gives, `None` when it throws. */
  datatype Probe =
    | NoStream
    | NoDecoder
    | Decoded(header: Option<Header>, frameCount: Option<int>)

  datatype Info = Info(width: int, height: int, size: int, format: string, extension: string, isAnimated: bool)

  const InvalidPathMessage := "文件不存在或路径无效"
  const NoStreamMessage := "无法读取图片流"
  const UnknownFormatMessage := "无法识别的文件格式，非标准图片"
  const CorruptMessage := "图片解析失败: 文件可能已损坏"

  function DimensionsMessage(width: int, height: int): string {
    "无效的图片尺寸: " + IntToString(width) + "x" + IntToString(height)
  }

  /** `mapFormatToExtension`: the suggested file suffix for a format name. */
  function MapFormatToExtension(format: string): (r: string)
    ensures format == "jpeg" ==> r == "jpg"
    ensures format == "wbmp" ==> r == "bmp"
    ensures format != "jpeg" && format != "wbmp" ==> r == format
  {
    match format
    case "jpeg" => "jpg"
    case "wbmp" => "bmp"
    case _ => format
  }

  /** The mapping never suggests the two names it replaces. */
  lemma ExtensionIsCanonical(format: string)
    ensures MapFormatToExtension(format) != "jpeg"
    ensures MapFormatToExtension(format) != "wbmp"
  {
  }

  /** Only GIF and WebP are scanned for frames. */
  predicate MayAnimate(format: string) {
    format == "gif" || format == "webp"
  }

  /** The frame count the constructor settles on: the decoder's count for a
      format that may animate, 1 otherwise or when counting fails. */
  function FrameCount(format: string, counted: Option<int>): (n: int)
    ensures !MayAnimate(format) ==> n == 1
    ensures counted.None? ==> n == 1
    ensures MayAnimate(format) && counted.Some? ==> n == counted.value
  {
    if MayAnimate(format) then counted.GetOr(1) else 1
  }

  /** The `ImageInfo(File)` constructor: either the file's metadata or the
      exception it throws. */
  function Read(file: FileEntry, probe: Probe): (r: Result<Info>)
    ensures !file.Regular? ==> r == Err(IllegalArgument(InvalidPathMessage))
    ensures file.Regular? && probe.NoStream? ==> r == Err(Runtime(NoStreamMessage))
    ensures file.Regular? && probe.NoDecoder? ==> r == Err(IllegalArgument(UnknownFormatMessage))
    ensures file.Regular? && probe.Decoded? && probe.header.None? ==> r == Err(Runtime(CorruptMessage))
    ensures file.Regular? && probe.Decoded? && probe.header.Some? ==>
              var h := probe.header.value;
              && (r.Ok? <==> h.width > 0 && h.height > 0)
              && (r.Err? ==> r.failure == IllegalArgument(DimensionsMessage(h.width, h.height)))
    ensures r.Ok? ==>
              && file.Regular? && probe.Decoded? && probe.header.Some?
              && r.value.size == file.length
              && r.value.width == probe.header.value.width > 0
              && r.value.height == probe.header.value.height > 0
              && r.value.format == Lower(probe.header.value.formatName)
              && r.value.extension == MapFormatToExtension(r.value.format)
              && (r.value.isAnimated <==> FrameCount(r.value.format, probe.frameCount) > 1)
  {
    match file
    case Absent => Err(IllegalArgument(InvalidPathMessage))
    case Directory => Err(IllegalArgument(InvalidPathMessage))
    case Regular(length) =>
      match probe
      case NoStream => Err(Runtime(NoStreamMessage))
      case NoDecoder => Err(IllegalArgument(UnknownFormatMessage))
      case Decoded(header, frames) =>
        match header
        case None => Err(Runtime(CorruptMessage))
        case Some(h) =>
          var format := Lower(h.formatName);
          if h.width <= 0 || h.height <= 0 then
            Err(IllegalArgument(DimensionsMessage(h.width, h.height)))
          else
            Ok(Info(h.width, h.height, length, format, MapFormatToExtension(format),
                    FrameCount(format, frames) > 1))
  }

  /** Whatever the decoder says, an image whose format is neither GIF nor WebP
      is never reported as animated, and a constructed image has positive
      dimensions. */
  lemma {:induction false} AnimatedOnlyGifOrWebp(file: FileEntry, probe: Probe)
    requires Read(file, probe).Ok?
    ensures Read(file, probe).value.isAnimated ==> MayAnimate(Read(file, probe).value.format)
    ensures Read(file, probe).value.width > 0 && Read(file, probe).value.height > 0
  {
    var info := Read(file, probe).value;
    if !MayAnimate(info.format) {
      assert FrameCount(info.format, probe.frameCount) == 1;
    }
  }
}
