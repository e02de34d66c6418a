/** The OpenGL context as the texture code sees it: a device that hands
    out non-zero object names, keeps track of which texture and
    framebuffer names are alive, and records every call in a log. The
    framebuffer completeness status is whatever the driver reports; it is
    an input of the model. */
module GLDevice {

  datatype TexParam = MinFilter | MagFilter | WrapS | WrapT | GenerateMipmap

  datatype TexParamValue = Linear | LinearMipmapNearest | ClampToEdge | GLTrue

  /** The `internalformat` argument of glTexImage2D. */
  datatype InternalFormat =
    | InternalRGBA | InternalRGB | InternalRGB8 | InternalDepthStencil | InternalDepthComponent24

  /** The `format` argument: the channels of the client pixels. */
  datatype PixelFormat = FormatBGRA | FormatRGB | FormatRGBA | FormatDepthStencil | FormatDepthComponent

  /** The `type` argument: how the channels are stored. */
  datatype PixelType =
    | TypeUnsignedByte | TypeInt | TypeUnsignedShort1555Rev | TypeUnsignedShort565
    | TypeUnsignedInt8888Rev | TypeUnsignedInt248

  datatype Attachment = ColorAttachment0 | DepthAttachment | StencilAttachment

  /** The values glCheckFramebufferStatusEXT can report. */
  datatype FramebufferStatus =
    | Complete | IncompleteReadBuffer | IncompleteDrawBuffer | IncompleteAttachment
    | IncompleteFormats | IncompleteDimensions | IncompleteDuplicateAttachment
    | IncompleteMissingAttachment | Unsupported | UnknownStatus

  /** One call into the device. Names are GLuint object names; 0 is "no object". */
  datatype Call =
    | GenTexture(name: nat)
    | BindTexture(name: nat)
    | TexParameter(param: TexParam, value: TexParamValue)
    | TexImage2D(internal: InternalFormat, width: int, height: int, format: PixelFormat, pixelType: PixelType)
    | TexSubImage2D(width: int, height: int, format: PixelFormat, pixelType: PixelType)
    | DeleteTexture(name: nat)
    | GenFramebuffer(name: nat)
    | BindFramebuffer(name: nat)
    | FramebufferTexture(attachment: Attachment, name: nat)
    | GetError
    | CheckFramebufferStatus(status: FramebufferStatus)
    | DeleteFramebuffer(name: nat)

  class Device {
    /** The next name the device hands out. */
    var NextName: nat
    /** Texture names generated and not yet deleted. */
    var Textures: set<nat>
    /** Framebuffer names generated and not yet deleted. */
    var Framebuffers: set<nat>
    /** What the next completeness check reports. */
    var Status: FramebufferStatus
    /** Every call made so far, oldest first. */
    ghost var Log: seq<Call>

    /** Every live name is non-zero and was handed out before. */
    ghost predicate Valid()
      reads this
    {
      && 0 < NextName
      && (forall n :: n in Textures ==> 0 < n < NextName)
      && (forall n :: n in Framebuffers ==> 0 < n < NextName)
    }

    constructor (status: FramebufferStatus)
      ensures Valid() && Textures == {} && Framebuffers == {} && Log == [] && Status == status
    {
      NextName := 1;
      Textures := {};
      Framebuffers := {};
      Status := status;
      Log := [];
    }

    /** glGenTextures for one name: a non-zero name no live texture has. */
    method GenTextureName() returns (name: nat)
      requires Valid()
      modifies this
      ensures Valid()
      ensures 0 < name && name !in old(Textures) && name !in old(Framebuffers)
      ensures name == old(NextName) && NextName == name + 1
      ensures Textures == old(Textures) + {name} && Framebuffers == old(Framebuffers) && Status == old(Status)
      ensures Log == old(Log) + [GenTexture(name)]
    {
      name := NextName;
      NextName := NextName + 1;
      Textures := Textures + {name};
      Log := Log + [GenTexture(name)];
    }

    /** glGenFramebuffersEXT for one name. */
    method GenFramebufferName() returns (name: nat)
      requires Valid()
      modifies this
      ensures Valid()
      ensures 0 < name && name !in old(Textures) && name !in old(Framebuffers)
      ensures name == old(NextName) && NextName == name + 1
      ensures Framebuffers == old(Framebuffers) + {name} && Textures == old(Textures) && Status == old(Status)
      ensures Log == old(Log) + [GenFramebuffer(name)]
    {
      name := NextName;
      NextName := NextName + 1;
      Framebuffers := Framebuffers + {name};
      Log := Log + [GenFramebuffer(name)];
    }

    /** glDeleteTextures for one name; names that are not alive (0 among
        them) are silently ignored. */
    method DeleteTextureName(name: nat)
      requires Valid()
      modifies this
      ensures Valid()
      ensures Textures == old(Textures) - {name}
      ensures Framebuffers == old(Framebuffers) && NextName == old(NextName) && Status == old(Status)
      ensures Log == old(Log) + [DeleteTexture(name)]
    {
      Textures := Textures - {name};
      Log := Log + [DeleteTexture(name)];
    }

    /** glDeleteFramebuffersEXT for one name. */
    method DeleteFramebufferName(name: nat)
      requires Valid()
      modifies this
      ensures Valid()
      ensures Framebuffers == old(Framebuffers) - {name}
      ensures Textures == old(Textures) && NextName == old(NextName) && Status == old(Status)
      ensures Log == old(Log) + [DeleteFramebuffer(name)]
    {
      Framebuffers := Framebuffers - {name};
      Log := Log + [DeleteFramebuffer(name)];
    }

    /** glCheckFramebufferStatusEXT: reports the driver's status. */
    method CheckStatus() returns (status: FramebufferStatus)
      modifies this`Log
      ensures status == Status
      ensures Log == old(Log) + [CheckFramebufferStatus(status)]
    {
      status := Status;
      Log := Log + [CheckFramebufferStatus(status)];
    }

    /** Any other call: it only lands in the log. */
    method Issue(call: Call)
      requires !call.GenTexture? && !call.GenFramebuffer? && !call.DeleteTexture?
      requires !call.DeleteFramebuffer? && !call.CheckFramebufferStatus?
      modifies this`Log
      ensures Log == old(Log) + [call]
    {
      Log := Log + [call];
    }
  }
}
