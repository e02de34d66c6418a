/** The OpenGL texture: staging of a source image (power-of-two rounding,
    R8G8B8 promotion), the upload parameter table, the mipmap policy, the
    render-target constructor that wires a framebuffer object and unwinds
    it when the driver reports it incomplete, and the teardown order. GL
    calls go to a GLDevice.Device; the driver is the extension handler
    whose queryFeature decides NPOT and automatic mipmap support. Pixel
    contents and their scaling are not modelled: an image is its colour
    format and its dimension. */
module OpenGLTextures {
  import GL = GLDevice
  import Ext = OpenGLExtensions

  datatype Option<T> = None | Some(value: T)

  // ---------------------------------------------------------------------
  // Powers of two

  function Pow2(k: nat): (p: nat)
    ensures p >= 1
  {
    if k == 0 then 1 else 2 * Pow2(k - 1)
  }

  /** The exponent of the least power of two that is at least `size`. */
  function CeilLog2(size: int): nat
    decreases if size <= 1 then 0 else size
  {
    if size <= 1 then 0 else 1 + CeilLog2((size + 1) / 2)
  }

  /** The least power of two that is at least `size` (1 when size <= 1). */
  function LeastPowerOfTwoAtLeast(size: int): nat
  {
    Pow2(CeilLog2(size))
  }

  /** LeastPowerOfTwoAtLeast is a power of two, reaches `size`, and the
      power of two below it does not. */
  lemma {:induction false} LeastPowerOfTwoBounds(size: int)
    ensures LeastPowerOfTwoAtLeast(size) >= size
    ensures size <= 1 ==> LeastPowerOfTwoAtLeast(size) == 1
    ensures CeilLog2(size) > 0 ==> Pow2(CeilLog2(size) - 1) < size
    decreases if size <= 1 then 0 else size
  {
    if size > 1 {
      var half := (size + 1) / 2;
      LeastPowerOfTwoBounds(half);
      if CeilLog2(half) > 0 {
        assert Pow2(CeilLog2(half) - 1) < half;
        assert Pow2(CeilLog2(size) - 1) == 2 * Pow2(CeilLog2(half) - 1);
      }
    }
  }

  /** A power of two that reaches `size` while the one below it does not is
      the least one. */
  lemma {:induction false} LeastPowerOfTwoUnique(size: int, k: nat)
    requires Pow2(k) >= size
    requires k > 0 ==> Pow2(k - 1) < size
    ensures k == CeilLog2(size)
    decreases k
  {
    if size > 1 {
      assert k > 0;
      var half := (size + 1) / 2;
      assert Pow2(k) == 2 * Pow2(k - 1);
      if k > 1 {
        assert Pow2(k - 1) == 2 * Pow2(k - 2);
      }
      LeastPowerOfTwoUnique(half, k - 1);
    }
  }

  /** A size that is already a power of two is kept. */
  lemma PowerOfTwoKept(k: nat)
    ensures LeastPowerOfTwoAtLeast(Pow2(k)) == Pow2(k)
  {
    if k > 0 {
      assert Pow2(k) == 2 * Pow2(k - 1);
    }
    LeastPowerOfTwoUnique(Pow2(k), k);
  }

  /** The largest size the shifting loop handles: beyond it the signed
      32-bit shift would overflow. */
  const MaxSurfaceSize: int := 0x4000_0000

  /** getTextureSizeFromSurfaceSize: doubles from 1 until the size is
      reached. */
  method TextureSizeFromSurfaceSize(size: int) returns (ts: int)
    requires size <= MaxSurfaceSize
    ensures ts == LeastPowerOfTwoAtLeast(size)
  {
    ts := 1;
    ghost var k: nat := 0;
    while ts < size
      invariant ts == Pow2(k)
      invariant k > 0 ==> Pow2(k - 1) < size
      decreases size - ts
    {
      ts := ts * 2;
      k := k + 1;
    }
    LeastPowerOfTwoUnique(size, k);
  }

  // ---------------------------------------------------------------------
  // Images and staging

  datatype ColorFormat = A1R5G5B5 | R5G6B5 | R8G8B8 | A8R8G8B8

  function BytesPerPixel(format: ColorFormat): nat
  {
    match format
    case A1R5G5B5 => 2
    case R5G6B5 => 2
    case R8G8B8 => 3
    case A8R8G8B8 => 4
  }

  /** The colour formats that carry an alpha channel. */
  predicate HasAlpha(format: ColorFormat)
  {
    format == A1R5G5B5 || format == A8R8G8B8
  }

  /** A dimension2d<s32>. */
  datatype Dimension = Dimension(width: int, height: int)

  /** An image as the texture code sees it: its colour format and size. */
  datatype ImageData = ImageData(format: ColorFormat, size: Dimension)

  /** Bytes per row of an image. */
  function Pitch(image: ImageData): int
  {
    BytesPerPixel(image.format) * image.size.width
  }

  /** A source image that staging accepts: present, with a non-zero width
      and a non-zero height. */
  predicate Stageable(image: Option<ImageData>)
  {
    image.Some? && image.value.size.width != 0 && image.value.size.height != 0
  }

  /** The staged format: R8G8B8 becomes A8R8G8B8, others are kept. */
  function StagedFormat(format: ColorFormat): ColorFormat
  {
    if format == R8G8B8 then A8R8G8B8 else format
  }

  /** The staged size: the source size when the driver takes textures of
      any size, otherwise each dimension rounded up to a power of two. */
  function StagedSize(size: Dimension, npot: bool): Dimension
  {
    if npot then size
    else Dimension(LeastPowerOfTwoAtLeast(size.width), LeastPowerOfTwoAtLeast(size.height))
  }

  function Staged(image: ImageData, npot: bool): ImageData
  {
    ImageData(StagedFormat(image.format), StagedSize(image.size, npot))
  }

  /** What staging promises: an alpha channel replaces R8G8B8 and every
      other format is kept; the size is kept with NPOT support; without it
      each dimension is the least power of two that holds the source
      dimension. Either way the staged image is at least as large. */
  lemma StagingProperties(image: ImageData, npot: bool)
    ensures Staged(image, npot).format != R8G8B8
    ensures image.format == R8G8B8 ==> Staged(image, npot).format == A8R8G8B8
    ensures image.format != R8G8B8 ==> Staged(image, npot).format == image.format
    ensures npot ==> Staged(image, npot).size == image.size
    ensures !npot ==> exists kw: nat, kh: nat :: Staged(image, npot).size == Dimension(Pow2(kw), Pow2(kh))
    ensures Staged(image, npot).size.width >= image.size.width
    ensures Staged(image, npot).size.height >= image.size.height
  {
    LeastPowerOfTwoBounds(image.size.width);
    LeastPowerOfTwoBounds(image.size.height);
    if !npot {
      var kw, kh := CeilLog2(image.size.width), CeilLog2(image.size.height);
      assert Staged(image, npot).size == Dimension(Pow2(kw), Pow2(kh));
    }
  }

  // ---------------------------------------------------------------------
  // Upload parameters

  /** The (internal format, pixel format, pixel type) copyTexture uploads
      each colour format with. */
  function UploadParameters(format: ColorFormat): (GL.InternalFormat, GL.PixelFormat, GL.PixelType)
  {
    match format
    case A1R5G5B5 => (GL.InternalRGBA, GL.FormatBGRA, GL.TypeUnsignedShort1555Rev)
    case R5G6B5 => (GL.InternalRGB, GL.FormatRGB, GL.TypeUnsignedShort565)
    case R8G8B8 => (GL.InternalRGB8, GL.FormatRGB, GL.TypeUnsignedByte)
    case A8R8G8B8 => (GL.InternalRGBA, GL.FormatBGRA, GL.TypeUnsignedInt8888Rev)
  }

  /** Channels of a client pixel format. */
  function Channels(format: GL.PixelFormat): nat
  {
    match format
    case FormatBGRA => 4
    case FormatRGB => 3
    case FormatRGBA => 4
    case FormatDepthStencil => 2
    case FormatDepthComponent => 1
  }

  /** The channels a packed pixel type holds, none for the per-channel types. */
  function PackedChannels(pixelType: GL.PixelType): Option<nat>
  {
    match pixelType
    case TypeUnsignedByte => None
    case TypeInt => None
    case TypeUnsignedShort1555Rev => Some(4)
    case TypeUnsignedShort565 => Some(3)
    case TypeUnsignedInt8888Rev => Some(4)
    case TypeUnsignedInt248 => Some(2)
  }

  /** Bytes GL reads per pixel for a format and type: the packed size, or
      the channel count times the size of one channel. */
  function ClientBytesPerPixel(format: GL.PixelFormat, pixelType: GL.PixelType): nat
  {
    match pixelType
    case TypeUnsignedByte => Channels(format)
    case TypeInt => 4 * Channels(format)
    case TypeUnsignedShort1555Rev => 2
    case TypeUnsignedShort565 => 2
    case TypeUnsignedInt8888Rev => 4
    case TypeUnsignedInt248 => 4
  }

  predicate InternalHasAlpha(internal: GL.InternalFormat)
  {
    internal == GL.InternalRGBA
  }

  /** Every entry of the table is a legal GL combination (a packed type
      comes with a format of as many channels), makes GL read exactly the
      image's bytes per pixel, and keeps alpha exactly when the colour
      format has it. */
  lemma UploadParametersAgree(format: ColorFormat)
    ensures var (internal, pixelFormat, pixelType) := UploadParameters(format);
      && (PackedChannels(pixelType).Some? ==> PackedChannels(pixelType).value == Channels(pixelFormat))
      && ClientBytesPerPixel(pixelFormat, pixelType) == BytesPerPixel(format)
      && (InternalHasAlpha(internal) <==> HasAlpha(format))
  {
  }

  // ---------------------------------------------------------------------
  // Call sequences

  /** The filter parameters copyTexture sets. */
  function FilterCalls(hasMipMaps: bool): seq<GL.Call>
  {
    if hasMipMaps then
      [GL.TexParameter(GL.MinFilter, GL.LinearMipmapNearest), GL.TexParameter(GL.MagFilter, GL.Linear)]
    else
      [GL.TexParameter(GL.MinFilter, GL.Linear), GL.TexParameter(GL.MagFilter, GL.Linear)]
  }

  /** The calls of copyTexture: bind, optional automatic mipmap generation,
      filters, then a full or a partial upload of the staged image. */
  function UploadCalls(name: nat, automaticMipmapUpdate: bool, hasMipMaps: bool, image: ImageData,
                       newTexture: bool): seq<GL.Call>
  {
    var (internal, pixelFormat, pixelType) := UploadParameters(image.format);
    [GL.BindTexture(name)]
      + (if automaticMipmapUpdate then [GL.TexParameter(GL.GenerateMipmap, GL.GLTrue)] else [])
      + FilterCalls(hasMipMaps)
      + [if newTexture then GL.TexImage2D(internal, image.size.width, image.size.height, pixelFormat, pixelType)
         else GL.TexSubImage2D(image.size.width, image.size.height, pixelFormat, pixelType)]
  }

  /** The mipmap min filter is chosen exactly when the texture keeps its
      mipmaps, and the upload carries the image's own size and the table's
      format and type. */
  lemma UploadCallsFilterAndSize(name: nat, auto: bool, hasMipMaps: bool, image: ImageData, newTexture: bool)
    ensures var calls := UploadCalls(name, auto, hasMipMaps, image, newTexture);
      && calls[0] == GL.BindTexture(name)
      && (GL.TexParameter(GL.MinFilter, GL.LinearMipmapNearest) in calls <==> hasMipMaps)
      && (GL.TexParameter(GL.GenerateMipmap, GL.GLTrue) in calls <==> auto)
      && var last := calls[|calls| - 1];
         (newTexture <==> last.TexImage2D?)
         && last.width == image.size.width && last.height == image.size.height
         && last.format == UploadParameters(image.format).1
         && last.pixelType == UploadParameters(image.format).2
  {
    var calls := UploadCalls(name, auto, hasMipMaps, image, newTexture);
    if !hasMipMaps {
      assert forall i :: 0 <= i < |calls| ==> calls[i] != GL.TexParameter(GL.MinFilter, GL.LinearMipmapNearest);
    }
    if !auto {
      assert forall i :: 0 <= i < |calls| ==> calls[i] != GL.TexParameter(GL.GenerateMipmap, GL.GLTrue);
    }
  }

  /** A texture's set-up calls: bind, linear min filter, allocation with
      no pixels, clamp-to-edge wrapping. */
  function TextureSetup(name: nat, internal: GL.InternalFormat, size: Dimension, pixelFormat: GL.PixelFormat,
                        pixelType: GL.PixelType): seq<GL.Call>
  {
    [GL.BindTexture(name), GL.TexParameter(GL.MinFilter, GL.Linear),
     GL.TexImage2D(internal, size.width, size.height, pixelFormat, pixelType),
     GL.TexParameter(GL.WrapS, GL.ClampToEdge), GL.TexParameter(GL.WrapT, GL.ClampToEdge)]
  }

  /** The deletions of the framebuffer-object handles, in order: the
      framebuffer, the depth texture, the stencil texture only when it is
      not the depth texture; zero handles are skipped. */
  function HandleDeletes(frameBuffer: nat, depth: nat, stencil: nat): seq<GL.Call>
  {
    (if frameBuffer != 0 then [GL.DeleteFramebuffer(frameBuffer)] else [])
      + (if depth != 0 then [GL.DeleteTexture(depth)] else [])
      + (if stencil != 0 && stencil != depth then [GL.DeleteTexture(stencil)] else [])
  }

  /** The destructor's calls: the handle deletions, then the colour texture. */
  function TeardownCalls(frameBuffer: nat, depth: nat, stencil: nat, name: nat): seq<GL.Call>
  {
    HandleDeletes(frameBuffer, depth, stencil) + [GL.DeleteTexture(name)]
  }

  /** Teardown deletes the framebuffer first and the colour texture last,
      and deletes no name twice as long as the stencil handle is absent or
      aliases the depth handle. */
  lemma TeardownOrder(frameBuffer: nat, depth: nat, stencil: nat, name: nat)
    requires stencil == 0 || stencil == depth
    requires depth != name
    ensures var calls := TeardownCalls(frameBuffer, depth, stencil, name);
      && (frameBuffer != 0 ==> calls[0] == GL.DeleteFramebuffer(frameBuffer))
      && calls[|calls| - 1] == GL.DeleteTexture(name)
      && (depth != 0 <==> GL.DeleteTexture(depth) in calls)
      && (forall i, j :: 0 <= i < j < |calls| ==> calls[i] != calls[j])
  {
    var calls := TeardownCalls(frameBuffer, depth, stencil, name);
    if depth == 0 {
      assert forall i :: 0 <= i < |calls| ==> calls[i] != GL.DeleteTexture(depth);
    }
  }

  /** The depth texture's set-up: packed depth and stencil when the
      extension is there, 24-bit depth alone otherwise. */
  function DepthSetup(depth: nat, size: Dimension, packed: bool): seq<GL.Call>
  {
    if packed then TextureSetup(depth, GL.InternalDepthStencil, size, GL.FormatDepthStencil, GL.TypeUnsignedInt248)
    else TextureSetup(depth, GL.InternalDepthComponent24, size, GL.FormatDepthComponent, GL.TypeUnsignedByte)
  }

  /** Generation and set-up of the colour texture, then of the depth texture. */
  function CreationCalls(color: nat, depth: nat, size: Dimension, packed: bool): seq<GL.Call>
  {
    [GL.GenTexture(color)] + TextureSetup(color, GL.InternalRGB8, size, GL.FormatRGBA, GL.TypeInt)
      + [GL.GenTexture(depth)] + DepthSetup(depth, size, packed)
  }

  /** Binding the framebuffer, attaching the three textures, clearing the
      error flag and asking for completeness. */
  function AttachCalls(frameBuffer: nat, color: nat, depth: nat, stencil: nat,
                       status: GL.FramebufferStatus): seq<GL.Call>
  {
    [GL.BindFramebuffer(frameBuffer),
     GL.FramebufferTexture(GL.ColorAttachment0, color),
     GL.FramebufferTexture(GL.DepthAttachment, depth),
     GL.FramebufferTexture(GL.StencilAttachment, stencil),
     GL.GetError, GL.CheckFramebufferStatus(status)]
  }

  /** The render-target constructor's calls for colour texture `color`,
      depth texture `depth` and framebuffer `frameBuffer`, when the driver
      reports `status`. */
  function RenderTargetCalls(color: nat, depth: nat, frameBuffer: nat, size: Dimension, packed: bool,
                             status: GL.FramebufferStatus): seq<GL.Call>
  {
    var stencil := if packed then depth else 0;
    CreationCalls(color, depth, size, packed)
      + [GL.GenFramebuffer(frameBuffer)]
      + AttachCalls(frameBuffer, color, depth, stencil, status)
      + (if status == GL.Complete then [] else HandleDeletes(frameBuffer, depth, stencil))
      + [GL.BindFramebuffer(0)]
  }

  /** The creation calls generate the two textures and delete nothing. */
  lemma CreationGenerates(color: nat, depth: nat, size: Dimension, packed: bool)
    ensures var calls := CreationCalls(color, depth, size, packed);
      && (forall n :: GL.GenTexture(n) in calls <==> n == color || n == depth)
      && (forall c :: c in calls ==> !c.GenFramebuffer? && !c.DeleteTexture? && !c.DeleteFramebuffer?)
  {
    var calls := CreationCalls(color, depth, size, packed);
    assert calls[0] == GL.GenTexture(color) && calls[6] == GL.GenTexture(depth);
  }

  lemma Associate<T>(a: seq<T>, b: seq<T>, c: seq<T>, d: seq<T>, e: seq<T>, f: seq<T>)
    ensures a + b + c + d + e + f == a + (b + c + d + e + f)
  {
  }

  /** The render-target calls, piece by piece. */
  lemma RenderTargetPieces(color: nat, depth: nat, frameBuffer: nat, size: Dimension, packed: bool,
                           status: GL.FramebufferStatus)
    requires 0 < depth && 0 < frameBuffer
    ensures var stencil := if packed then depth else 0;
      RenderTargetCalls(color, depth, frameBuffer, size, packed, status)
      == CreationCalls(color, depth, size, packed) + [GL.GenFramebuffer(frameBuffer)]
         + AttachCalls(frameBuffer, color, depth, stencil, status)
         + (if status == GL.Complete then [] else [GL.DeleteFramebuffer(frameBuffer), GL.DeleteTexture(depth)])
         + [GL.BindFramebuffer(0)]
    ensures forall c :: c in AttachCalls(frameBuffer, color, depth, if packed then depth else 0, status) ==>
      !c.GenTexture? && !c.GenFramebuffer? && !c.DeleteTexture? && !c.DeleteFramebuffer?
  {
    var stencil := if packed then depth else 0;
    assert HandleDeletes(frameBuffer, depth, stencil) == [GL.DeleteFramebuffer(frameBuffer), GL.DeleteTexture(depth)];
  }

  /** The render-target constructor generates exactly the colour and depth
      textures and one framebuffer, and always ends by binding the default
      framebuffer. */
  lemma RenderTargetGenerates(color: nat, depth: nat, frameBuffer: nat, size: Dimension, packed: bool,
                              status: GL.FramebufferStatus)
    requires 0 < depth && 0 < frameBuffer
    ensures var calls := RenderTargetCalls(color, depth, frameBuffer, size, packed, status);
      && (forall n :: GL.GenTexture(n) in calls <==> n == color || n == depth)
      && (forall n :: GL.GenFramebuffer(n) in calls <==> n == frameBuffer)
      && calls[|calls| - 1] == GL.BindFramebuffer(0)
  {
    RenderTargetPieces(color, depth, frameBuffer, size, packed, status);
    CreationGenerates(color, depth, size, packed);
  }

  /** When the framebuffer is incomplete the render-target constructor
      deletes the framebuffer and the depth texture and nothing else; when
      it is complete it deletes nothing. */
  lemma RenderTargetUnwinds(color: nat, depth: nat, frameBuffer: nat, size: Dimension, packed: bool,
                            status: GL.FramebufferStatus)
    requires 0 < depth && 0 < frameBuffer
    ensures var calls := RenderTargetCalls(color, depth, frameBuffer, size, packed, status);
      && (forall n :: GL.DeleteTexture(n) in calls <==> status != GL.Complete && n == depth)
      && (forall n :: GL.DeleteFramebuffer(n) in calls <==> status != GL.Complete && n == frameBuffer)
  {
    RenderTargetPieces(color, depth, frameBuffer, size, packed, status);
    CreationGenerates(color, depth, size, packed);
  }

  /** checkFBOStatus: asks the driver and accepts only a complete
      framebuffer; every other status is reported as an error. */
  method CheckFBOStatus(gl: GL.Device) returns (complete: bool)
    modifies gl`Log
    ensures complete <==> gl.Status == GL.Complete
    ensures gl.Log == old(gl.Log) + [GL.CheckFramebufferStatus(gl.Status)]
  {
    var status := gl.CheckStatus();
    match status
    case Complete =>
      complete := true;
    case _ =>
      complete := false;
  }

  // ---------------------------------------------------------------------
  // The texture

  class OpenGLTexture {
    /** The driver; its queryFeature answers NPOT and automatic mipmap
        support. Null is allowed where the source tests for it. */
    const Driver: Ext.ExtensionHandler?
    /** The GL context the calls go to. */
    const Gl: GL.Device
    var Image: Option<ImageData>
    var ImageSize: Dimension
    var TextureName: nat
    var InternalFormat: GL.InternalFormat
    var PixelFormat: GL.PixelFormat
    var PixelType: GL.PixelType
    var HasMipMaps: bool
    var AutomaticMipmapUpdate: bool
    var ColorFrameBuffer: nat
    var DepthRenderBuffer: nat
    var StencilRenderBuffer: nat

    /** The stencil handle is absent or aliases the depth handle; the
        framebuffer and the depth handle exist together or not at all;
        every handle held is alive on the device and the depth texture is
        not the colour texture; a staged image is never R8G8B8, has a
        texture name and is at least as large as the source. */
    ghost predicate Valid()
      reads this, Gl, Driver
    {
      && Gl.Valid()
      && (Driver != null ==> Driver.Valid())
      && (StencilRenderBuffer == 0 || StencilRenderBuffer == DepthRenderBuffer)
      && (ColorFrameBuffer == 0 <==> DepthRenderBuffer == 0)
      && (ColorFrameBuffer != 0 ==> ColorFrameBuffer in Gl.Framebuffers)
      && (DepthRenderBuffer != 0 ==> DepthRenderBuffer in Gl.Textures && DepthRenderBuffer != TextureName)
      && (TextureName != 0 ==> TextureName in Gl.Textures)
      && (Image.Some? ==>
            && Image.value.format != R8G8B8
            && TextureName != 0
            && Driver != null
            && Image.value.size.width >= ImageSize.width
            && Image.value.size.height >= ImageSize.height)
    }

    /** Does the driver take textures of any size? */
    predicate Npot()
      requires Driver != null ==> Driver.Valid()
      reads this, Driver, if Driver == null then {} else {Driver.FeatureAvailable}
    {
      Driver != null && Driver.QueryFeature(Ext.TextureNpot)
    }

    /** The image constructor: stages the image and, when staging accepted
        it, generates a texture name and uploads the staged image. A
        missing or empty image leaves the texture without image and name. */
    constructor FromImage(image: Option<ImageData>, generateMipLevels: bool, driver: Ext.ExtensionHandler?,
                          gl: GL.Device)
      requires gl.Valid() && (driver != null ==> driver.Valid())
      requires Stageable(image) ==> driver != null
      requires image.Some? ==> image.value.size.width <= MaxSurfaceSize && image.value.size.height <= MaxSurfaceSize
      modifies gl
      ensures Valid() && Driver == driver && Gl == gl
      ensures ColorFrameBuffer == 0 && DepthRenderBuffer == 0 && StencilRenderBuffer == 0
      ensures ImageSize == (if image.Some? then image.value.size else Dimension(0, 0))
      ensures !Stageable(image) ==>
        && Image.None? && TextureName == 0 && HasMipMaps == generateMipLevels
        && (InternalFormat, PixelFormat, PixelType) == (GL.InternalRGBA, GL.FormatBGRA, GL.TypeUnsignedByte)
        && gl.Log == old(gl.Log) && gl.Textures == old(gl.Textures) && gl.NextName == old(gl.NextName)
      ensures Stageable(image) ==>
        && Image == Some(Staged(image.value, Npot()))
        && TextureName == old(gl.NextName) && gl.NextName == TextureName + 1
        && gl.Textures == old(gl.Textures) + {TextureName}
        && AutomaticMipmapUpdate == (generateMipLevels && driver.QueryFeature(Ext.MipMapAutoUpdate))
        && HasMipMaps == AutomaticMipmapUpdate
        && (InternalFormat, PixelFormat, PixelType) == UploadParameters(Image.value.format)
        && gl.Log == old(gl.Log) + [GL.GenTexture(TextureName)]
                     + UploadCalls(TextureName, AutomaticMipmapUpdate, HasMipMaps, Image.value, true)
      ensures gl.Framebuffers == old(gl.Framebuffers) && gl.Status == old(gl.Status)
    {
      Driver := driver;
      Gl := gl;
      Image := None;
      ImageSize := Dimension(0, 0);
      TextureName := 0;
      InternalFormat := GL.InternalRGBA;
      PixelFormat := GL.FormatBGRA;
      PixelType := GL.TypeUnsignedByte;
      HasMipMaps := generateMipLevels;
      ColorFrameBuffer := 0;
      DepthRenderBuffer := 0;
      StencilRenderBuffer := 0;
      new;
      GetImageData(image);
      if Image.Some? {
        StagingProperties(image.value, Npot());
        TextureName := gl.GenTextureName();
        CopyTexture(true);
      }
    }

    /** getImageData: records the source size and stages the image, or
        leaves the texture without image when there is none or its width or
        height is zero. */
    method GetImageData(image: Option<ImageData>)
      requires Image.None? && (Driver != null ==> Driver.Valid())
      requires image.Some? ==> image.value.size.width <= MaxSurfaceSize && image.value.size.height <= MaxSurfaceSize
      modifies this`Image, this`ImageSize
      ensures ImageSize == (if image.Some? then image.value.size else old(ImageSize))
      ensures Image == (if Stageable(image) then Some(Staged(image.value, Npot())) else None)
    {
      if image.None? {
        return;
      }
      var source := image.value;
      ImageSize := source.size;
      if ImageSize.width == 0 || ImageSize.height == 0 {
        return;
      }
      var target: Dimension;
      if Driver != null && Driver.QueryFeature(Ext.TextureNpot) {
        target := ImageSize;
      } else {
        var width := TextureSizeFromSurfaceSize(ImageSize.width);
        var height := TextureSizeFromSurfaceSize(ImageSize.height);
        target := Dimension(width, height);
      }
      // The same-size copy and the scaled copy allocate the same image.
      if source.format == R8G8B8 {
        Image := Some(ImageData(A8R8G8B8, target));
      } else {
        Image := Some(ImageData(source.format, target));
      }
    }

    /** copyTexture: binds the texture, picks the upload parameters from
        the table, applies the mipmap policy and uploads the staged image,
        allocating storage when `newTexture` is set. */
    method CopyTexture(newTexture: bool)
      requires Image.Some? && Driver != null && Driver.Valid()
      modifies this`InternalFormat, this`PixelFormat, this`PixelType, this`HasMipMaps,
               this`AutomaticMipmapUpdate, Gl`Log
      ensures (InternalFormat, PixelFormat, PixelType) == UploadParameters(Image.value.format)
      ensures AutomaticMipmapUpdate == (old(HasMipMaps) && Driver.QueryFeature(Ext.MipMapAutoUpdate))
      ensures HasMipMaps == AutomaticMipmapUpdate
      ensures Gl.Log == old(Gl.Log) + UploadCalls(TextureName, AutomaticMipmapUpdate, HasMipMaps, Image.value, newTexture)
    {
      Gl.Issue(GL.BindTexture(TextureName));
      var (internal, pixelFormat, pixelType) := UploadParameters(Image.value.format);
      InternalFormat, PixelFormat, PixelType := internal, pixelFormat, pixelType;
      ghost var log0 := Gl.Log;
      if HasMipMaps && Driver != null && Driver.QueryFeature(Ext.MipMapAutoUpdate) {
        Gl.Issue(GL.TexParameter(GL.GenerateMipmap, GL.GLTrue));
        AutomaticMipmapUpdate := true;
      } else {
        AutomaticMipmapUpdate := false;
        RegenerateMipMapLevels();
      }
      assert Gl.Log == log0 + (if AutomaticMipmapUpdate then [GL.TexParameter(GL.GenerateMipmap, GL.GLTrue)] else []);
      IssueFilters();
      IssueUpload(newTexture);
    }

    /** The filter parameters for the current mipmap state. */
    method IssueFilters()
      modifies Gl`Log
      ensures Gl.Log == old(Gl.Log) + FilterCalls(HasMipMaps)
    {
      if HasMipMaps {
        Gl.Issue(GL.TexParameter(GL.MinFilter, GL.LinearMipmapNearest));
        Gl.Issue(GL.TexParameter(GL.MagFilter, GL.Linear));
      } else {
        Gl.Issue(GL.TexParameter(GL.MinFilter, GL.Linear));
        Gl.Issue(GL.TexParameter(GL.MagFilter, GL.Linear));
      }
    }

    /** The upload of the staged image: new storage or a replacement of the
        existing storage's contents. */
    method IssueUpload(newTexture: bool)
      requires Image.Some?
      modifies Gl`Log
      ensures var size := Image.value.size;
        Gl.Log == old(Gl.Log)
          + [if newTexture then GL.TexImage2D(InternalFormat, size.width, size.height, PixelFormat, PixelType)
             else GL.TexSubImage2D(size.width, size.height, PixelFormat, PixelType)]
    {
      var size := Image.value.size;
      if newTexture {
        Gl.Issue(GL.TexImage2D(InternalFormat, size.width, size.height, PixelFormat, PixelType));
      } else {
        Gl.Issue(GL.TexSubImage2D(size.width, size.height, PixelFormat, PixelType));
      }
    }

    /** regenerateMipMapLevels: without automatic updates the texture gives
        up its mipmaps; with them, or with no mipmaps, nothing changes. */
    method RegenerateMipMapLevels()
      modifies this`HasMipMaps
      ensures HasMipMaps == (old(HasMipMaps) && AutomaticMipmapUpdate)
    {
      if AutomaticMipmapUpdate || !HasMipMaps {
        return;
      }
      HasMipMaps := false;
    }

    /** The render-target constructor: a colour texture, a depth texture
        (packed with stencil when the extension is there), and a
        framebuffer with both attached. An incomplete framebuffer is
        unwound: its framebuffer and depth handles are deleted and zeroed,
        and only the colour texture remains. `size` is not stored, so the
        textures are allocated with the default 0x0 size. */
    constructor RenderTarget(size: Dimension, extPackedDepthStencilSupported: bool, driver: Ext.ExtensionHandler?,
                             gl: GL.Device)
      requires gl.Valid() && driver != null && driver.Valid()
      modifies gl
      ensures Valid() && Driver == driver && Gl == gl
      ensures Image.None? && !HasMipMaps && ImageSize == Dimension(0, 0)
      ensures TextureName == old(gl.NextName) && gl.NextName == TextureName + 3
      ensures gl.Status == GL.Complete ==>
        && ColorFrameBuffer == TextureName + 2 && DepthRenderBuffer == TextureName + 1
        && StencilRenderBuffer == (if extPackedDepthStencilSupported then DepthRenderBuffer else 0)
        && gl.Textures == old(gl.Textures) + {TextureName, TextureName + 1}
        && gl.Framebuffers == old(gl.Framebuffers) + {TextureName + 2}
      ensures gl.Status != GL.Complete ==>
        && ColorFrameBuffer == 0 && DepthRenderBuffer == 0 && StencilRenderBuffer == 0
        && gl.Textures == old(gl.Textures) + {TextureName}
        && gl.Framebuffers == old(gl.Framebuffers)
      ensures gl.Log == old(gl.Log) + RenderTargetCalls(TextureName, TextureName + 1, TextureName + 2,
                                                        Dimension(0, 0), extPackedDepthStencilSupported, gl.Status)
      ensures gl.Status == old(gl.Status)
    {
      Driver := driver;
      Gl := gl;
      Image := None;
      ImageSize := Dimension(0, 0);
      TextureName := 0;
      InternalFormat := GL.InternalRGBA;
      PixelFormat := GL.FormatBGRA;
      PixelType := GL.TypeUnsignedByte;
      HasMipMaps := false;
      ColorFrameBuffer := 0;
      DepthRenderBuffer := 0;
      StencilRenderBuffer := 0;
      new;
      ghost var log0 := gl.Log;
      ghost var packed := extPackedDepthStencilSupported;
      ghost var color := gl.NextName;
      ghost var stencil := if packed then color + 1 else 0;
      CreateColorAndDepth(extPackedDepthStencilSupported);
      ghost var creation := CreationCalls(color, color + 1, Dimension(0, 0), packed);
      assert gl.Log == log0 + creation;
      CreateFramebuffer();
      ghost var attach := AttachCalls(color + 2, color, color + 1, stencil, gl.Status);
      assert gl.Log == log0 + creation + [GL.GenFramebuffer(color + 2)] + attach;
      ghost var unwind := if gl.Status == GL.Complete then [] else HandleDeletes(color + 2, color + 1, stencil);
      FinishFramebuffer();
      assert gl.Log == log0 + creation + [GL.GenFramebuffer(color + 2)] + attach + unwind + [GL.BindFramebuffer(0)];
      Associate(log0, creation, [GL.GenFramebuffer(color + 2)], attach, unwind, [GL.BindFramebuffer(0)]);
    }

    /** Generates the framebuffer, attaches the textures and asks for
        completeness. */
    method CreateFramebuffer()
      requires Gl.Valid()
      modifies this`ColorFrameBuffer, Gl
      ensures Gl.Valid()
      ensures ColorFrameBuffer == old(Gl.NextName) && Gl.NextName == ColorFrameBuffer + 1
      ensures Gl.Framebuffers == old(Gl.Framebuffers) + {ColorFrameBuffer}
      ensures Gl.Textures == old(Gl.Textures) && Gl.Status == old(Gl.Status)
      ensures Gl.Log == old(Gl.Log) + [GL.GenFramebuffer(ColorFrameBuffer)]
        + AttachCalls(ColorFrameBuffer, TextureName, DepthRenderBuffer, StencilRenderBuffer, Gl.Status)
    {
      ColorFrameBuffer := Gl.GenFramebufferName();
      AttachAndCheck();
    }

    /** Unwinds an incomplete framebuffer, then binds the default one. */
    method FinishFramebuffer()
      requires Gl.Valid()
      modifies this`ColorFrameBuffer, this`DepthRenderBuffer, this`StencilRenderBuffer, Gl
      ensures Gl.Valid() && Gl.NextName == old(Gl.NextName) && Gl.Status == old(Gl.Status)
      ensures Gl.Status == GL.Complete ==>
        && ColorFrameBuffer == old(ColorFrameBuffer) && DepthRenderBuffer == old(DepthRenderBuffer)
        && StencilRenderBuffer == old(StencilRenderBuffer)
        && Gl.Textures == old(Gl.Textures) && Gl.Framebuffers == old(Gl.Framebuffers)
      ensures Gl.Status != GL.Complete ==>
        && ColorFrameBuffer == 0 && DepthRenderBuffer == 0 && StencilRenderBuffer == 0
        && Gl.Textures == old(Gl.Textures) - {old(DepthRenderBuffer), old(StencilRenderBuffer)}
        && Gl.Framebuffers == old(Gl.Framebuffers) - {old(ColorFrameBuffer)}
      ensures Gl.Log == old(Gl.Log)
        + (if Gl.Status == GL.Complete then []
           else HandleDeletes(old(ColorFrameBuffer), old(DepthRenderBuffer), old(StencilRenderBuffer)))
        + [GL.BindFramebuffer(0)]
    {
      if !Gl.Status.Complete? {
        DeleteHandles();
      }
      Gl.Issue(GL.BindFramebuffer(0));
    }

    /** Generates and sets up the colour texture, then the depth texture,
        which also serves as stencil texture when packed. */
    method CreateColorAndDepth(packed: bool)
      requires Gl.Valid()
      modifies this`TextureName, this`DepthRenderBuffer, this`StencilRenderBuffer, Gl
      ensures Gl.Valid()
      ensures TextureName == old(Gl.NextName) && DepthRenderBuffer == TextureName + 1
      ensures StencilRenderBuffer == (if packed then DepthRenderBuffer else old(StencilRenderBuffer))
      ensures Gl.NextName == TextureName + 2
      ensures Gl.Textures == old(Gl.Textures) + {TextureName, DepthRenderBuffer}
      ensures Gl.Framebuffers == old(Gl.Framebuffers) && Gl.Status == old(Gl.Status)
      ensures Gl.Log == old(Gl.Log) + CreationCalls(TextureName, DepthRenderBuffer, ImageSize, packed)
    {
      TextureName := Gl.GenTextureName();
      SetUpTexture(TextureName, GL.InternalRGB8, GL.FormatRGBA, GL.TypeInt);
      DepthRenderBuffer := Gl.GenTextureName();
      if packed {
        SetUpTexture(DepthRenderBuffer, GL.InternalDepthStencil, GL.FormatDepthStencil, GL.TypeUnsignedInt248);
        StencilRenderBuffer := DepthRenderBuffer;
      } else {
        SetUpTexture(DepthRenderBuffer, GL.InternalDepthComponent24, GL.FormatDepthComponent, GL.TypeUnsignedByte);
      }
    }

    /** One texture's set-up for the render target: bind, linear min
        filter, storage of ImageSize without pixels, clamp-to-edge. */
    method SetUpTexture(name: nat, internal: GL.InternalFormat, pixelFormat: GL.PixelFormat,
                        pixelType: GL.PixelType)
      modifies Gl`Log
      ensures Gl.Log == old(Gl.Log) + TextureSetup(name, internal, ImageSize, pixelFormat, pixelType)
    {
      Gl.Issue(GL.BindTexture(name));
      Gl.Issue(GL.TexParameter(GL.MinFilter, GL.Linear));
      Gl.Issue(GL.TexImage2D(internal, ImageSize.width, ImageSize.height, pixelFormat, pixelType));
      Gl.Issue(GL.TexParameter(GL.WrapS, GL.ClampToEdge));
      Gl.Issue(GL.TexParameter(GL.WrapT, GL.ClampToEdge));
    }

    /** Binds the framebuffer, attaches the colour, depth and stencil
        textures, clears the error flag and asks for completeness. */
    method AttachAndCheck()
      modifies Gl`Log
      ensures Gl.Log == old(Gl.Log)
        + AttachCalls(ColorFrameBuffer, TextureName, DepthRenderBuffer, StencilRenderBuffer, Gl.Status)
    {
      Gl.Issue(GL.BindFramebuffer(ColorFrameBuffer));
      Gl.Issue(GL.FramebufferTexture(GL.ColorAttachment0, TextureName));
      Gl.Issue(GL.FramebufferTexture(GL.DepthAttachment, DepthRenderBuffer));
      Gl.Issue(GL.FramebufferTexture(GL.StencilAttachment, StencilRenderBuffer));
      Gl.Issue(GL.GetError);
      var complete := CheckFBOStatus(Gl);
    }

    /** Deletes the framebuffer, the depth texture and a separate stencil
        texture, each only when present, and zeroes the three handles. */
    method DeleteHandles()
      requires Gl.Valid()
      modifies this`ColorFrameBuffer, this`DepthRenderBuffer, this`StencilRenderBuffer, Gl
      ensures ColorFrameBuffer == 0 && DepthRenderBuffer == 0 && StencilRenderBuffer == 0
      ensures Gl.Valid() && Gl.NextName == old(Gl.NextName) && Gl.Status == old(Gl.Status)
      ensures Gl.Log == old(Gl.Log) + HandleDeletes(old(ColorFrameBuffer), old(DepthRenderBuffer), old(StencilRenderBuffer))
      ensures Gl.Framebuffers == old(Gl.Framebuffers) - {old(ColorFrameBuffer)}
      ensures Gl.Textures == old(Gl.Textures) - {old(DepthRenderBuffer), old(StencilRenderBuffer)}
    {
      if ColorFrameBuffer != 0 {
        Gl.DeleteFramebufferName(ColorFrameBuffer);
      }
      if DepthRenderBuffer != 0 {
        Gl.DeleteTextureName(DepthRenderBuffer);
      }
      if StencilRenderBuffer != 0 && StencilRenderBuffer != DepthRenderBuffer {
        Gl.DeleteTextureName(StencilRenderBuffer);
      }
      ColorFrameBuffer := 0;
      DepthRenderBuffer := 0;
      StencilRenderBuffer := 0;
    }

    /** The destructor: deletes the framebuffer-object handles, then the
        colour texture, then drops the image. */
    method Release()
      requires Valid()
      modifies this`ColorFrameBuffer, this`DepthRenderBuffer, this`StencilRenderBuffer, this`Image, Gl
      ensures ColorFrameBuffer == 0 && DepthRenderBuffer == 0 && StencilRenderBuffer == 0 && Image.None?
      ensures Gl.Log == old(Gl.Log) + TeardownCalls(old(ColorFrameBuffer), old(DepthRenderBuffer),
                                                    old(StencilRenderBuffer), TextureName)
      ensures Gl.Textures == old(Gl.Textures) - {old(DepthRenderBuffer), TextureName}
      ensures Gl.Framebuffers == old(Gl.Framebuffers) - {old(ColorFrameBuffer)}
      ensures Gl.Valid() && Gl.NextName == old(Gl.NextName) && Gl.Status == old(Gl.Status)
    {
      DeleteHandles();
      Gl.DeleteTextureName(TextureName);
      Image := None;
    }

    /** lock: the staged image to write into, or none. */
    function Lock(): (buffer: Option<ImageData>)
      requires Valid()
      reads this, Gl, Driver
      ensures buffer.Some? ==> buffer.value.format != R8G8B8 && buffer.value.size == GetOriginalSize()
      ensures buffer.None? <==> GetPitch() == 0 && GetColorFormat() == A8R8G8B8 && Image.None?
    {
      Image
    }

    /** unlock: uploads the staged image again into the existing storage. */
    method Unlock()
      requires Valid() && Image.Some?
      modifies this`InternalFormat, this`PixelFormat, this`PixelType, this`HasMipMaps,
               this`AutomaticMipmapUpdate, Gl`Log
      ensures Valid()
      ensures (InternalFormat, PixelFormat, PixelType) == UploadParameters(Image.value.format)
      ensures AutomaticMipmapUpdate == (old(HasMipMaps) && Driver.QueryFeature(Ext.MipMapAutoUpdate))
      ensures HasMipMaps == AutomaticMipmapUpdate
      ensures Gl.Log == old(Gl.Log) + UploadCalls(TextureName, AutomaticMipmapUpdate, HasMipMaps, Image.value, false)
    {
      CopyTexture(false);
    }

    /** getOriginalSize: the staged image's size when there is one, which
        is never smaller than the source size getSize reports. */
    function GetOriginalSize(): (size: Dimension)
      requires Valid()
      reads this, Gl, Driver
      ensures size.width >= ImageSize.width && size.height >= ImageSize.height
      ensures Image.None? ==> size == ImageSize
    {
      if Image.Some? then Image.value.size else ImageSize
    }

    /** getColorFormat: never R8G8B8, because staging promotes it. */
    function GetColorFormat(): (format: ColorFormat)
      requires Valid()
      reads this, Gl, Driver
      ensures format != R8G8B8
      ensures Image.Some? ==> format == Image.value.format
    {
      if Image.Some? then Image.value.format else A8R8G8B8
    }

    /** getPitch: bytes per row of the staged image, 0 without one. */
    function GetPitch(): (pitch: int)
      requires Valid()
      reads this, Gl, Driver
      ensures Image.Some? ==> pitch == BytesPerPixel(GetColorFormat()) * GetOriginalSize().width
      ensures Image.None? ==> pitch == 0
    {
      if Image.Some? then Pitch(Image.value) else 0
    }

    /** isFrameBufferObject: exactly when the framebuffer, and with it the
        depth texture, survived construction. */
    function IsFrameBufferObject(): (isTarget: bool)
      requires Valid()
      reads this, Gl, Driver
      ensures isTarget <==> ColorFrameBuffer != 0
      ensures isTarget <==> DepthRenderBuffer != 0
      ensures isTarget ==> ColorFrameBuffer in Gl.Framebuffers && DepthRenderBuffer in Gl.Textures
    {
      ColorFrameBuffer != 0
    }

    /** bindFrameBufferObject: binds the framebuffer of a render target. */
    method BindFrameBufferObject()
      modifies Gl`Log
      ensures Gl.Log == old(Gl.Log) + (if ColorFrameBuffer != 0 then [GL.BindFramebuffer(ColorFrameBuffer)] else [])
    {
      if ColorFrameBuffer != 0 {
        Gl.Issue(GL.BindFramebuffer(ColorFrameBuffer));
      }
    }

    /** unbindFrameBufferObject: returns to the default framebuffer. */
    method UnbindFrameBufferObject()
      modifies Gl`Log
      ensures Gl.Log == old(Gl.Log) + (if ColorFrameBuffer != 0 then [GL.BindFramebuffer(0)] else [])
    {
      if ColorFrameBuffer != 0 {
        Gl.Issue(GL.BindFramebuffer(0));
      }
    }
  }
}
