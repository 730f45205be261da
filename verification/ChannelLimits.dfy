/** Limits of channels that several parts of the server share (include/channel.h). */
module ChannelLimits {
  /** MAXOPLEVEL: the level of an op that nobody set. */
  const MAX_OPLEVEL: nat := 999
}
